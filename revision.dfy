/**
 * The client's seven-day revision rule (frontend/src/utils/revisionLogic.js).
 * The current time, which the source reads with `new Date()`, is the
 * parameter `now`; a topic's `lastStudied` is its time in milliseconds, or
 * `None` when the topic has never been studied.
 */
module Revision {
  import opened Wrappers
  import opened Seqs
  import opened Topics
  import opened Decimal
  import opened Arith

  /** `1000 * 60 * 60 * 24`: milliseconds in a day. */
  const MsPerDay: nat := 1000 * 60 * 60 * 24

  /** A topic is due for revision once more than this many days have passed. */
  const RevisionAfterDays: nat := 7

  /** Past this many days the reminder asks for a review soon. */
  const ReviewSoonAfterDays: nat := 5

  /** `Math.abs(a - b)`. */
  function Distance(a: int, b: int): (d: nat)
    ensures d == a - b || d == b - a
    ensures a - b <= d && b - a <= d
  {
    if a >= b then a - b else b - a
  }

  /** `Math.ceil(ms / MsPerDay)`: the fewest whole days that cover `ms`. */
  function DaysCeil(ms: nat): (days: nat)
    ensures ms <= days * MsPerDay
    ensures days == 0 || (days - 1) * MsPerDay < ms
  {
    (ms + MsPerDay - 1) / MsPerDay
  }

  /**
   * `daysSinceLastStudy`: `null` for a topic never studied, otherwise the
   * number of started days between the two moments, in either direction.
   */
  function DaysSinceLastStudy(lastStudied: Option<Millis>, now: Millis): (days: Option<nat>)
    ensures days.None? <==> lastStudied.None?
    ensures days.Some? ==>
      var ms := Distance(now, lastStudied.value);
      ms <= days.value * MsPerDay && (days.value == 0 || (days.value - 1) * MsPerDay < ms)
  {
    match lastStudied
    case None => None
    case Some(last) => Some(DaysCeil(Distance(now, last)))
  }

  /** The day count is zero exactly when the two moments coincide. */
  lemma ZeroDaysIffSameMoment(last: Millis, now: Millis)
    ensures DaysSinceLastStudy(Some(last), now) == Some(0) <==> last == now
  {
    if last != now {
      var days := DaysSinceLastStudy(Some(last), now).value;
      assert Distance(now, last) <= days * MsPerDay;
    }
  }

  /** More than `days` whole days means more than `days * MsPerDay` milliseconds, and back. */
  lemma CeilAbove(ms: nat, days: nat)
    ensures DaysCeil(ms) > days <==> ms > days * MsPerDay
  {
    var d := DaysCeil(ms);
    if d > days {
      assert (d - 1) * MsPerDay >= days * MsPerDay by { MulMonotone(MsPerDay, days, d - 1); }
    } else {
      assert d * MsPerDay <= days * MsPerDay by { MulMonotone(MsPerDay, d, days); }
    }
  }

  /**
   * `needsRevision`: false for a topic never studied; otherwise true exactly
   * when the moments lie more than seven days apart.
   */
  function NeedsRevision(lastStudied: Option<Millis>, now: Millis): (due: bool)
    ensures due <==> lastStudied.Some? && Distance(now, lastStudied.value) > RevisionAfterDays * MsPerDay
  {
    match DaysSinceLastStudy(lastStudied, now)
    case None => false
    case Some(days) =>
      CeilAbove(Distance(now, lastStudied.value), RevisionAfterDays);
      days > RevisionAfterDays
  }

  /** Exactly seven days is not yet due; one millisecond more is. */
  lemma SevenDayBoundary(now: Millis)
    ensures !NeedsRevision(Some(now - RevisionAfterDays * MsPerDay), now)
    ensures NeedsRevision(Some(now - RevisionAfterDays * MsPerDay - 1), now)
  {
  }

  /** The rule measures the gap in either direction, so a date in the future counts too. */
  lemma NeedsRevisionIsSymmetric(now: Millis, gap: nat)
    ensures NeedsRevision(Some(now - gap), now) == NeedsRevision(Some(now + gap), now)
  {
  }

  /** Once a past study date is due, it stays due as time goes on. */
  lemma StaysDue(last: Millis, now: Millis, later: Millis)
    requires last <= now <= later
    ensures NeedsRevision(Some(last), now) ==> NeedsRevision(Some(last), later)
  {
  }

  /** The filter `topic.status === 'Completed' && needsRevision(topic.lastStudied)`. */
  function DueAt(now: Millis): Topic -> bool {
    (t: Topic) => t.status == Completed && NeedsRevision(t.lastStudied, now)
  }

  /** `getTopicsNeedingRevision`: the completed topics that are due, in input order. */
  function TopicsNeedingRevision(topics: seq<Topic>, now: Millis): (due: seq<Topic>)
    ensures forall i :: 0 <= i < |due| ==>
      due[i].status == Completed && NeedsRevision(due[i].lastStudied, now)
  {
    var due := Filter(topics, DueAt(now));
    assert forall i :: 0 <= i < |due| ==> DueAt(now)(due[i]);
    due
  }

  /**
   * The list holds every due completed topic as often as the input does, no
   * other topic, and keeps the input order.
   */
  lemma TopicsNeedingRevisionExact(topics: seq<Topic>, now: Millis)
    ensures forall t ::
      multiset(TopicsNeedingRevision(topics, now))[t] ==
      (if t.status == Completed && NeedsRevision(t.lastStudied, now) then multiset(topics)[t] else 0)
    ensures IsSubsequence(TopicsNeedingRevision(topics, now), topics)
  {
    FilterMultiset(topics, DueAt(now));
    FilterIsSubsequence(topics, DueAt(now));
  }

  // ---------------------------------------------------------------------------
  // getRevisionMessage
  // ---------------------------------------------------------------------------

  /** U+26A0 U+FE0F, the warning sign. */
  const OverdueIcon := "\U{26A0}\U{FE0F}"
  /** U+23F0, the alarm clock. */
  const SoonIcon := "\U{23F0}"
  /** U+2713, the check mark. */
  const RecentIcon := "\U{2713}"

  const LastStudiedPhrase := " Last studied "
  const DaysAgoPhrase := " days ago"
  const NeedsRevisionSuffix := " - Needs revision!"
  const ReviewSoonSuffix := " - Review soon"

  /** `s` ends with `tail`. */
  predicate EndsWith(s: string, tail: string) {
    |tail| <= |s| && s[|s| - |tail|..] == tail
  }

  /** One reminder line: the icon, the day count and the suffix. */
  function Reminder(icon: string, days: nat, suffix: string): string {
    icon + LastStudiedPhrase + NatToString(days) + DaysAgoPhrase + suffix
  }

  /** A reminder line starts with its icon and ends with " days ago" and its suffix. */
  lemma ReminderShape(icon: string, days: nat, suffix: string)
    ensures icon <= Reminder(icon, days, suffix)
    ensures EndsWith(Reminder(icon, days, suffix), DaysAgoPhrase + suffix)
  {
    var head := icon + LastStudiedPhrase + NatToString(days);
    assert Reminder(icon, days, suffix) == head + (DaysAgoPhrase + suffix);
  }

  /**
   * `getRevisionMessage`: no message when the day count is `null` or 0;
   * otherwise a warning past seven days, a nudge past five, and a check mark
   * below that.
   */
  function GetRevisionMessage(topic: Topic, now: Millis): (msg: string)
    ensures msg == "" <==> topic.lastStudied.None? || topic.lastStudied.value == now
    ensures msg != "" ==>
      var ms := Distance(now, topic.lastStudied.value);
      (msg[0] == OverdueIcon[0] <==> NeedsRevision(topic.lastStudied, now)) &&
      (msg[0] == SoonIcon[0] <==> ReviewSoonAfterDays * MsPerDay < ms <= RevisionAfterDays * MsPerDay) &&
      (msg[0] == RecentIcon[0] <==> ms <= ReviewSoonAfterDays * MsPerDay)
    ensures msg != "" && NeedsRevision(topic.lastStudied, now) ==>
      OverdueIcon <= msg && EndsWith(msg, DaysAgoPhrase + NeedsRevisionSuffix)
    ensures msg != "" && ReviewSoonAfterDays * MsPerDay < Distance(now, topic.lastStudied.value) <= RevisionAfterDays * MsPerDay ==>
      SoonIcon <= msg && EndsWith(msg, DaysAgoPhrase + ReviewSoonSuffix)
    ensures msg != "" && Distance(now, topic.lastStudied.value) <= ReviewSoonAfterDays * MsPerDay ==>
      RecentIcon <= msg && EndsWith(msg, DaysAgoPhrase)
  {
    match DaysSinceLastStudy(topic.lastStudied, now)
    case None => ""
    case Some(days) =>
      ZeroDaysIffSameMoment(topic.lastStudied.value, now);
      CeilAbove(Distance(now, topic.lastStudied.value), RevisionAfterDays);
      CeilAbove(Distance(now, topic.lastStudied.value), ReviewSoonAfterDays);
      if days == 0 then ""
      else if days > RevisionAfterDays then
        ReminderShape(OverdueIcon, days, NeedsRevisionSuffix);
        Reminder(OverdueIcon, days, NeedsRevisionSuffix)
      else if days > ReviewSoonAfterDays then
        ReminderShape(SoonIcon, days, ReviewSoonSuffix);
        Reminder(SoonIcon, days, ReviewSoonSuffix)
      else
        ReminderShape(RecentIcon, days, "");
        assert DaysAgoPhrase + "" == DaysAgoPhrase;
        Reminder(RecentIcon, days, "")
  }

  /** The digits at the front of `s`. */
  function LeadingDigits(s: string): (digits: string)
    ensures digits <= s
    ensures forall i :: 0 <= i < |digits| ==> IsDigit(digits[i])
    decreases |s|
  {
    if s == [] || !IsDigit(s[0]) then [] else [s[0]] + LeadingDigits(s[1..])
  }

  /**
   * A reader of reminder lines: the number written after the first
   * " Last studied ", if there is one.
   */
  function ShownDays(msg: string): Option<nat>
    decreases |msg|
  {
    if |msg| < |LastStudiedPhrase| then None
    else if msg[..|LastStudiedPhrase|] == LastStudiedPhrase then
      var digits := LeadingDigits(msg[|LastStudiedPhrase|..]);
      if digits == [] then None else Some(ParseDecimal(digits))
    else ShownDays(msg[1..])
  }

  lemma {:induction false} LeadingDigitsOfDigits(digits: string, rest: string)
    requires forall i :: 0 <= i < |digits| ==> IsDigit(digits[i])
    requires rest == [] || !IsDigit(rest[0])
    ensures LeadingDigits(digits + rest) == digits
    decreases |digits|
  {
    if digits != [] {
      assert (digits + rest)[1..] == digits[1..] + rest;
      LeadingDigitsOfDigits(digits[1..], rest);
    }
  }

  /** A reader that skips the icon finds the day count written in the line. */
  lemma {:induction false} ReadReminder(icon: string, days: nat, suffix: string)
    requires forall i :: 0 <= i < |icon| ==> icon[i] != ' '
    ensures ShownDays(Reminder(icon, days, suffix)) == Some(days)
    decreases |icon|
  {
    var msg := Reminder(icon, days, suffix);
    if icon == [] {
      var tail := NatToString(days) + DaysAgoPhrase + suffix;
      assert msg == LastStudiedPhrase + tail;
      assert msg[..|LastStudiedPhrase|] == LastStudiedPhrase;
      assert msg[|LastStudiedPhrase|..] == tail;
      assert tail == NatToString(days) + (DaysAgoPhrase + suffix);
      LeadingDigitsOfDigits(NatToString(days), DaysAgoPhrase + suffix);
      ParseNatToString(days);
    } else {
      assert msg[0] == icon[0] && LastStudiedPhrase[0] == ' ';
      assert msg[..|LastStudiedPhrase|] != LastStudiedPhrase by {
        assert msg[..|LastStudiedPhrase|][0] != LastStudiedPhrase[0];
      }
      assert ShownDays(msg) == ShownDays(msg[1..]);
      assert msg[1..] == Reminder(icon[1..], days, suffix);
      ReadReminder(icon[1..], days, suffix);
    }
  }

  /** Every non-empty message reports the day count `daysSinceLastStudy` gives. */
  lemma MessageShowsDays(topic: Topic, now: Millis)
    requires GetRevisionMessage(topic, now) != ""
    ensures ShownDays(GetRevisionMessage(topic, now)) == DaysSinceLastStudy(topic.lastStudied, now)
  {
    var days := DaysSinceLastStudy(topic.lastStudied, now).value;
    if days > RevisionAfterDays {
      ReadReminder(OverdueIcon, days, NeedsRevisionSuffix);
    } else if days > ReviewSoonAfterDays {
      ReadReminder(SoonIcon, days, ReviewSoonSuffix);
    } else {
      ReadReminder(RecentIcon, days, "");
    }
  }

  /** A completed topic is listed for revision exactly when its reminder carries the warning. */
  lemma ListedIffWarned(topic: Topic, now: Millis)
    requires topic.status == Completed
    ensures topic in TopicsNeedingRevision([topic], now) <==>
      (GetRevisionMessage(topic, now) != "" && GetRevisionMessage(topic, now)[0] == OverdueIcon[0])
  {
    TopicsNeedingRevisionExact([topic], now);
    assert multiset([topic])[topic] == 1;
  }
}
