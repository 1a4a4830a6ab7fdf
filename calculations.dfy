/**
 * The dashboard arithmetic of frontend/src/hooks/useCalculations.js: the
 * completion percentage, the per-status counts and the ordering by
 * importance. All three are pure: they read the topic list and build new
 * values, so as functions on sequences they cannot change their input.
 */
module Calculations {
  import opened Wrappers
  import opened Seqs
  import opened Topics
  import opened Arith

  /** The filter `topic => topic.status === status`. */
  function HasStatus(status: string): Topic -> bool {
    (t: Topic) => t.status == status
  }

  /** `topics.filter(t => t.status === status).length`. */
  function CountStatus(topics: seq<Topic>, status: string): (n: nat)
    ensures n <= |topics|
  {
    |Filter(topics, HasStatus(status))|
  }

  /** Counting splits over concatenation, and a single topic counts once when its status matches. */
  lemma CountStatusAdditive(a: seq<Topic>, b: seq<Topic>, status: string)
    ensures CountStatus(a + b, status) == CountStatus(a, status) + CountStatus(b, status)
    ensures |a| == 1 ==> CountStatus(a, status) == if a[0].status == status then 1 else 0
  {
    FilterAppend(a, b, HasStatus(status));
  }

  // ---------------------------------------------------------------------------
  // calculateProgress
  // ---------------------------------------------------------------------------

  /**
   * `Math.round(completed / total * 100)` in exact arithmetic: the integer
   * nearest to 100·completed/total, halves rounded up, which is
   * floor((200·completed + total) / (2·total)).
   */
  function RoundedPercent(completed: nat, total: nat): (percent: nat)
    requires 0 < total && completed <= total
    ensures percent <= 100
    ensures 2 * total * percent <= 200 * completed + total < 2 * total * (percent + 1)
  {
    var percent := (200 * completed + total) / (2 * total);
    PercentAtMostHundred(completed, total, percent);
    percent
  }

  lemma PercentAtMostHundred(completed: nat, total: nat, percent: nat)
    requires 0 < total && completed <= total
    requires 2 * total * percent <= 200 * completed + total
    ensures percent <= 100
  {
    MulMonotone(2 * total, 101, percent);
  }

  /** `calculateProgress`: the share of completed topics, as a whole percentage. */
  function CalculateProgress(topics: Option<seq<Topic>>): (percent: nat)
    ensures percent <= 100
    ensures topics.None? || topics.value == [] ==> percent == 0
    ensures topics.Some? && topics.value != [] ==>
      var total, completed := |topics.value|, CountStatus(topics.value, Completed);
      2 * total * percent <= 200 * completed + total < 2 * total * (percent + 1)
  {
    if topics.None? || |topics.value| == 0 then 0
    else RoundedPercent(CountStatus(topics.value, Completed), |topics.value|)
  }

  /** A list whose topics are all completed shows 100; one with none completed shows 0. */
  lemma ProgressExtremes(topics: seq<Topic>)
    requires topics != []
    ensures (forall i :: 0 <= i < |topics| ==> topics[i].status == Completed) ==> CalculateProgress(Some(topics)) == 100
    ensures (forall i :: 0 <= i < |topics| ==> topics[i].status != Completed) ==> CalculateProgress(Some(topics)) == 0
  {
    ProgressThresholds(topics);
    if forall i :: 0 <= i < |topics| ==> topics[i].status == Completed {
      FilterKeepsAll(topics, HasStatus(Completed));
    }
    if forall i :: 0 <= i < |topics| ==> topics[i].status != Completed {
      FilterKeepsNone(topics, HasStatus(Completed));
    }
  }

  /**
   * Exactly when the dashboard shows 100 and 0. Rounding makes 100 appear
   * once at least 99.5% of the topics are completed, so a full bar does not
   * mean that every topic is completed.
   */
  lemma ProgressThresholds(topics: seq<Topic>)
    requires topics != []
    ensures var total, completed := |topics|, CountStatus(topics, Completed);
      && (CalculateProgress(Some(topics)) == 100 <==> 200 * completed >= 199 * total)
      && (CalculateProgress(Some(topics)) == 0 <==> 200 * completed < total)
  {
    var total, completed := |topics|, CountStatus(topics, Completed);
    var percent := CalculateProgress(Some(topics));
    RoundedPercentThresholds(completed, total, percent);
  }

  lemma RoundedPercentThresholds(completed: nat, total: nat, percent: nat)
    requires 0 < total && completed <= total
    requires 2 * total * percent <= 200 * completed + total < 2 * total * (percent + 1)
    ensures percent == 100 <==> 200 * completed >= 199 * total
    ensures percent == 0 <==> 200 * completed < total
  {
    MulMonotone(2 * total, percent + 1, 100);
    MulMonotone(2 * total, 1, percent);
    MulMonotone(2 * total, 101, percent);
  }

  // ---------------------------------------------------------------------------
  // getStatusCounts
  // ---------------------------------------------------------------------------

  datatype StatusCounts = StatusCounts(total: nat, completed: nat, pending: nat, inProgress: nat)

  /** The topics whose status is none of the three the client knows. */
  function OtherStatus(): Topic -> bool {
    (t: Topic) => t.status != Completed && t.status != Pending && t.status != InProgress
  }

  /** Every topic has one of the three statuses or another one, never two. */
  lemma {:induction false} StatusesPartition(topics: seq<Topic>)
    ensures CountStatus(topics, Completed) + CountStatus(topics, Pending) + CountStatus(topics, InProgress)
            + |Filter(topics, OtherStatus())| == |topics|
    decreases |topics|
  {
    if topics != [] {
      StatusesPartition(topics[1..]);
    }
  }

  /** `getStatusCounts`: how many topics there are, and how many have each status. */
  function GetStatusCounts(topics: Option<seq<Topic>>): (counts: StatusCounts)
    ensures topics.None? ==> counts == StatusCounts(0, 0, 0, 0)
    ensures topics.Some? ==> counts.total == |topics.value|
    ensures topics.Some? ==>
      && counts.completed == CountStatus(topics.value, Completed)
      && counts.pending == CountStatus(topics.value, Pending)
      && counts.inProgress == CountStatus(topics.value, InProgress)
    ensures counts.completed + counts.pending + counts.inProgress <= counts.total
  {
    if topics.None? then StatusCounts(0, 0, 0, 0)
    else
      StatusesPartition(topics.value);
      StatusCounts(|topics.value|, CountStatus(topics.value, Completed),
                   CountStatus(topics.value, Pending), CountStatus(topics.value, InProgress))
  }

  /** When every status is one of the three, the three counts add up to the total. */
  lemma CountsAddUp(topics: seq<Topic>)
    requires forall i :: 0 <= i < |topics| ==>
      topics[i].status == Completed || topics[i].status == Pending || topics[i].status == InProgress
    ensures var counts := GetStatusCounts(Some(topics));
      counts.completed + counts.pending + counts.inProgress == counts.total
  {
    StatusesPartition(topics);
    FilterKeepsNone(topics, OtherStatus());
  }

  // ---------------------------------------------------------------------------
  // sortByImportance
  // ---------------------------------------------------------------------------

  /** `importanceOrder[importance]`: High 1, Medium 2, Low 3; 0 stands for a value the table lacks. */
  function Rank(importance: string): (rank: nat)
    ensures rank <= 3
    ensures importance == High ==> rank == 1
    ensures importance == Medium ==> rank == 2
    ensures importance == Low ==> rank == 3
    ensures rank == 0 <==> importance != High && importance != Medium && importance != Low
  {
    if importance == High then 1
    else if importance == Medium then 2
    else if importance == Low then 3
    else 0
  }

  /** Every topic has one of the three importances. */
  predicate AllRanked(topics: seq<Topic>) {
    forall i :: 0 <= i < |topics| ==> Rank(topics[i].importance) != 0
  }

  /** Insert `t` after every element that does not rank after it. */
  function InsertByRank(t: Topic, sorted: seq<Topic>): (r: seq<Topic>)
    ensures multiset(r) == multiset(sorted) + multiset{t}
    decreases |sorted|
  {
    if sorted == [] then [t]
    else if Rank(t.importance) < Rank(sorted[0].importance) then [t] + sorted
    else
      assert sorted == [sorted[0]] + sorted[1..];
      [sorted[0]] + InsertByRank(t, sorted[1..])
  }

  /**
   * `[...topics].sort((a, b) => rank(a) - rank(b))` with a stable sort: the
   * topics are taken in input order and each goes after every earlier topic
   * that does not rank after it.
   */
  function SortByImportance(topics: seq<Topic>): (sorted: seq<Topic>)
    requires AllRanked(topics)
    ensures multiset(sorted) == multiset(topics)
    decreases |topics|
  {
    if topics == [] then []
    else
      var rest := topics[..|topics| - 1];
      assert topics == rest + [topics[|topics| - 1]];
      InsertByRank(topics[|topics| - 1], SortByImportance(rest))
  }

  /** The filter `topic => rank(topic.importance) === rank`. */
  function RankIs(rank: nat): Topic -> bool {
    (t: Topic) => Rank(t.importance) == rank
  }

  /** The topics of one rank, in input order. */
  function ByRank(topics: seq<Topic>, rank: nat): seq<Topic> {
    Filter(topics, RankIs(rank))
  }

  /** Inserting into a sequence already split at the right place puts the new topic there. */
  lemma {:induction false} InsertAtBoundary(t: Topic, before: seq<Topic>, after: seq<Topic>)
    requires forall i :: 0 <= i < |before| ==> Rank(before[i].importance) <= Rank(t.importance)
    requires after == [] || Rank(t.importance) < Rank(after[0].importance)
    ensures InsertByRank(t, before + after) == before + [t] + after
    decreases |before|
  {
    if before != [] {
      assert (before + after)[0] == before[0];
      assert (before + after)[1..] == before[1..] + after;
      InsertAtBoundary(t, before[1..], after);
    }
  }

  /** Every topic of `s` has rank `rank`. */
  predicate AllOfRank(s: seq<Topic>, rank: nat) {
    forall i :: 0 <= i < |s| ==> Rank(s[i].importance) == rank
  }

  lemma ByRankIsOfRank(topics: seq<Topic>, rank: nat)
    ensures AllOfRank(ByRank(topics, rank), rank)
  {
    var r := ByRank(topics, rank);
    forall i | 0 <= i < |r| ensures Rank(r[i].importance) == rank {
      assert RankIs(rank)(r[i]);
    }
  }

  /** `group` with `t` appended when `t` has rank `rank`. */
  function AppendIfRank(group: seq<Topic>, t: Topic, rank: nat): seq<Topic> {
    if Rank(t.importance) == rank then group + [t] else group
  }

  /** Appending one topic to the input appends it to its own rank's group only. */
  lemma ByRankSnoc(topics: seq<Topic>, t: Topic, rank: nat)
    ensures ByRank(topics + [t], rank) == AppendIfRank(ByRank(topics, rank), t, rank)
  {
    FilterAppend(topics, [t], RankIs(rank));
  }

  /** Ranks of a concatenation of groups stay at most the largest group rank. */
  lemma RanksAtMost(front: seq<Topic>, back: seq<Topic>, bound: nat)
    requires forall i :: 0 <= i < |front| ==> Rank(front[i].importance) <= bound
    requires forall i :: 0 <= i < |back| ==> Rank(back[i].importance) <= bound
    ensures forall i :: 0 <= i < |front + back| ==> Rank((front + back)[i].importance) <= bound
  {
    forall i | 0 <= i < |front + back| ensures Rank((front + back)[i].importance) <= bound {
      if i < |front| { assert (front + back)[i] == front[i]; } else { assert (front + back)[i] == back[i - |front|]; }
    }
  }

  /** Inserting a topic into the three groups puts it at the end of its own group. */
  lemma InsertIntoGroups(t: Topic, b1: seq<Topic>, b2: seq<Topic>, b3: seq<Topic>)
    requires AllOfRank(b1, 1) && AllOfRank(b2, 2) && AllOfRank(b3, 3)
    requires 1 <= Rank(t.importance) <= 3
    ensures InsertByRank(t, b1 + b2 + b3) == AppendIfRank(b1, t, 1) + AppendIfRank(b2, t, 2) + AppendIfRank(b3, t, 3)
  {
    var k := Rank(t.importance);
    if k == 1 {
      InsertHigh(t, b1, b2, b3);
    } else if k == 2 {
      InsertMedium(t, b1, b2, b3);
    } else {
      InsertLow(t, b1, b2, b3);
    }
  }

  lemma InsertHigh(t: Topic, b1: seq<Topic>, b2: seq<Topic>, b3: seq<Topic>)
    requires AllOfRank(b1, 1) && AllOfRank(b2, 2) && AllOfRank(b3, 3)
    requires Rank(t.importance) == 1
    ensures InsertByRank(t, b1 + b2 + b3) == (b1 + [t]) + b2 + b3
  {
    var after := b2 + b3;
    assert b1 + b2 + b3 == b1 + after;
    assert after == [] || Rank(after[0].importance) > 1;
    InsertAtBoundary(t, b1, after);
    assert InsertByRank(t, b1 + after) == b1 + [t] + after;
  }

  lemma InsertMedium(t: Topic, b1: seq<Topic>, b2: seq<Topic>, b3: seq<Topic>)
    requires AllOfRank(b1, 1) && AllOfRank(b2, 2) && AllOfRank(b3, 3)
    requires Rank(t.importance) == 2
    ensures InsertByRank(t, b1 + b2 + b3) == b1 + (b2 + [t]) + b3
  {
    RanksAtMost(b1, b2, 2);
    InsertAtBoundary(t, b1 + b2, b3);
  }

  lemma InsertLow(t: Topic, b1: seq<Topic>, b2: seq<Topic>, b3: seq<Topic>)
    requires AllOfRank(b1, 1) && AllOfRank(b2, 2) && AllOfRank(b3, 3)
    requires Rank(t.importance) == 3
    ensures InsertByRank(t, b1 + b2 + b3) == b1 + b2 + (b3 + [t])
  {
    var before := b1 + b2 + b3;
    InsertAtBoundary(t, before, []);
    assert before + [] == before;
    assert before + [t] + [] == b1 + b2 + (b3 + [t]);
  }

  /**
   * The sort's result is the High topics, then the Medium ones, then the Low
   * ones, each group in input order.
   */
  lemma {:induction false} SortIsStablePartition(topics: seq<Topic>)
    requires AllRanked(topics)
    ensures SortByImportance(topics) == ByRank(topics, 1) + ByRank(topics, 2) + ByRank(topics, 3)
    decreases |topics|
  {
    if topics != [] {
      var rest, t := topics[..|topics| - 1], topics[|topics| - 1];
      assert topics == rest + [t];
      assert AllRanked(rest);
      SortIsStablePartition(rest);
      ByRankIsOfRank(rest, 1);
      ByRankIsOfRank(rest, 2);
      ByRankIsOfRank(rest, 3);
      InsertIntoGroups(t, ByRank(rest, 1), ByRank(rest, 2), ByRank(rest, 3));
      ByRankSnoc(rest, t, 1);
      ByRankSnoc(rest, t, 2);
      ByRankSnoc(rest, t, 3);
    }
  }

  /** Ranks never decrease along `s`. */
  predicate OrderedByRank(s: seq<Topic>) {
    forall i, j :: 0 <= i < j < |s| ==> Rank(s[i].importance) <= Rank(s[j].importance)
  }

  lemma GroupsOrdered(b1: seq<Topic>, b2: seq<Topic>, b3: seq<Topic>)
    requires AllOfRank(b1, 1) && AllOfRank(b2, 2) && AllOfRank(b3, 3)
    ensures OrderedByRank(b1 + b2 + b3)
  {
    var s := b1 + b2 + b3;
    forall i | 0 <= i < |s|
      ensures Rank(s[i].importance) == if i < |b1| then 1 else if i < |b1| + |b2| then 2 else 3
    {
      if i < |b1| { assert s[i] == b1[i]; }
      else if i < |b1| + |b2| { assert s[i] == b2[i - |b1|]; }
      else { assert s[i] == b3[i - |b1| - |b2|]; }
    }
  }

  /** Ranks never decrease along the sorted list. */
  lemma SortIsOrdered(topics: seq<Topic>)
    requires AllRanked(topics)
    ensures OrderedByRank(SortByImportance(topics))
  {
    SortIsStablePartition(topics);
    ByRankIsOfRank(topics, 1);
    ByRankIsOfRank(topics, 2);
    ByRankIsOfRank(topics, 3);
    GroupsOrdered(ByRank(topics, 1), ByRank(topics, 2), ByRank(topics, 3));
  }

  /** Filtering the three groups by one rank yields that rank's group. */
  lemma GroupsByRank(b1: seq<Topic>, b2: seq<Topic>, b3: seq<Topic>, rank: nat)
    requires AllOfRank(b1, 1) && AllOfRank(b2, 2) && AllOfRank(b3, 3)
    ensures ByRank(b1 + b2 + b3, rank) == if rank == 1 then b1 else if rank == 2 then b2 else if rank == 3 then b3 else []
  {
    FilterAppend(b1 + b2, b3, RankIs(rank));
    FilterAppend(b1, b2, RankIs(rank));
    if rank == 1 { FilterKeepsAll(b1, RankIs(rank)); } else { FilterKeepsNone(b1, RankIs(rank)); }
    if rank == 2 { FilterKeepsAll(b2, RankIs(rank)); } else { FilterKeepsNone(b2, RankIs(rank)); }
    if rank == 3 { FilterKeepsAll(b3, RankIs(rank)); } else { FilterKeepsNone(b3, RankIs(rank)); }
  }

  /** Topics of equal importance keep their input order: each rank's topics are the same sequence before and after. */
  lemma SortIsStable(topics: seq<Topic>, rank: nat)
    requires AllRanked(topics)
    ensures ByRank(SortByImportance(topics), rank) == ByRank(topics, rank)
  {
    SortIsStablePartition(topics);
    ByRankIsOfRank(topics, 1);
    ByRankIsOfRank(topics, 2);
    ByRankIsOfRank(topics, 3);
    GroupsByRank(ByRank(topics, 1), ByRank(topics, 2), ByRank(topics, 3), rank);
    if rank < 1 || rank > 3 {
      FilterKeepsNone(topics, RankIs(rank));
    }
  }
}
