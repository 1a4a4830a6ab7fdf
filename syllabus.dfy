/**
 * The owner-scoped topic collection behind backend/routes/syllabus.js: add,
 * list, update and delete, each issued by an authenticated caller whose id
 * the authentication middleware supplies (the middleware itself is not part
 * of this model; the caller id is an input trusted as given).
 *
 * Each handler is a pure step function from the collection to a reply and
 * the collection afterwards; `TopicCollection` holds the collection and
 * updates it in place, its methods proved equal to the step functions.
 */
module Syllabus {
  import opened Wrappers
  import opened Seqs
  import opened Topics
  import Auth

  /** The fields of a POST /add body; `userId` is whatever the client put there. */
  datatype AddBody = AddBody(subject: string, topicName: string, importance: string, userId: Option<Auth.UserId>)

  /** What the schema fills in on a new record (models/Syllabus is not part of this model). */
  datatype Defaults = Defaults(status: string, lastStudied: Option<Millis>)

  /** The replies of the four handlers. */
  datatype Reply =
    | Created(topic: Topic)
    | Listed(topics: seq<Topic>)
    | Updated(topic: Topic)
    | Deleted(message: string)
    | NotFound(error: string)
  {
    function Status(): nat {
      match this
      case Created(_) => 201
      case NotFound(_) => 404
      case _ => 200
    }
  }

  const TopicNotFound := "Topic not found"
  const TopicDeleted := "Topic deleted successfully"

  /** The filter `{ userId: caller }`. */
  function OwnedBy(caller: Auth.UserId): Topic -> bool {
    (t: Topic) => t.userId == caller
  }

  /** The rows `caller` owns, in collection order. */
  function Mine(rows: seq<Topic>, caller: Auth.UserId): seq<Topic> {
    Filter(rows, OwnedBy(caller))
  }

  /** The filter `{ _id: id, userId: caller }`. */
  predicate Matches(t: Topic, id: TopicId, caller: Auth.UserId) {
    t.id == id && t.userId == caller
  }

  /** Where `findOneAndUpdate`/`findOneAndDelete` act: the first row matching `(id, caller)`, if any. */
  function FindOwned(rows: seq<Topic>, id: TopicId, caller: Auth.UserId): (r: Option<nat>)
    ensures r.None? <==> forall j :: 0 <= j < |rows| ==> !Matches(rows[j], id, caller)
    ensures r.Some? ==>
      && r.value < |rows| && Matches(rows[r.value], id, caller)
      && forall j :: 0 <= j < r.value ==> !Matches(rows[j], id, caller)
    decreases |rows|
  {
    if rows == [] then None
    else if Matches(rows[0], id, caller) then Some(0)
    else match FindOwned(rows[1..], id, caller)
      case None => None
      case Some(i) => Some(i + 1)
  }

  /** No two rows share an id. */
  ghost predicate IdsUnique(rows: seq<Topic>) {
    forall i, j :: 0 <= i < j < |rows| ==> rows[i].id != rows[j].id
  }

  // ---------------------------------------------------------------------------
  // The handlers as step functions
  // ---------------------------------------------------------------------------

  /** POST /add: a new record owned by the caller, appended; the new record gets id `newId`. */
  function AddStep(rows: seq<Topic>, caller: Auth.UserId, body: AddBody, defaults: Defaults, newId: TopicId)
    : (r: (Reply, seq<Topic>))
    ensures r.0.Created? && r.0.Status() == 201
    ensures r.0.topic.userId == caller && r.0.topic.id == newId
    ensures r.1 == rows + [r.0.topic]
  {
    var topic := Topic(newId, caller, body.subject, body.topicName, body.importance, defaults.status, defaults.lastStudied);
    (Created(topic), rows + [topic])
  }

  /** GET /all: the caller's rows. */
  function ListReply(rows: seq<Topic>, caller: Auth.UserId): (reply: Reply)
    ensures reply.Listed? && reply.Status() == 200
    ensures forall t :: t in reply.topics ==> t in rows && t.userId == caller
  {
    Listed(Mine(rows, caller))
  }

  /** PUT /:id: set `status` and stamp `lastStudied` with `now` on the caller's row `id`. */
  function UpdateStep(rows: seq<Topic>, caller: Auth.UserId, id: TopicId, status: string, now: Millis)
    : (r: (Reply, seq<Topic>))
    ensures r.0.NotFound? <==> forall j :: 0 <= j < |rows| ==> !Matches(rows[j], id, caller)
    ensures r.0.NotFound? ==> r.0 == NotFound(TopicNotFound) && r.1 == rows
    ensures r.0.Updated? ==>
      var i := FindOwned(rows, id, caller).value;
      && r.0.topic == rows[i].(status := status, lastStudied := Some(now))
      && r.1 == rows[i := r.0.topic]
    ensures r.0.NotFound? || r.0.Updated?
  {
    match FindOwned(rows, id, caller)
    case None => (NotFound(TopicNotFound), rows)
    case Some(i) =>
      var topic := rows[i].(status := status, lastStudied := Some(now));
      (Updated(topic), rows[i := topic])
  }

  /** DELETE /:id: remove the caller's row `id`. */
  function DeleteStep(rows: seq<Topic>, caller: Auth.UserId, id: TopicId): (r: (Reply, seq<Topic>))
    ensures r.0.NotFound? <==> forall j :: 0 <= j < |rows| ==> !Matches(rows[j], id, caller)
    ensures r.0.NotFound? ==> r.0 == NotFound(TopicNotFound) && r.1 == rows
    ensures r.0.Deleted? ==>
      var i := FindOwned(rows, id, caller).value;
      && r.0.message == TopicDeleted
      && r.1 == rows[..i] + rows[i + 1..]
    ensures r.0.NotFound? || r.0.Deleted?
  {
    match FindOwned(rows, id, caller)
    case None => (NotFound(TopicNotFound), rows)
    case Some(i) => (Deleted(TopicDeleted), rows[..i] + rows[i + 1..])
  }

  // ---------------------------------------------------------------------------
  // The collection, updated in place
  // ---------------------------------------------------------------------------

  class TopicCollection {
    var rows: seq<Topic>
    /** Stands for the store's id generator: every id handed out so far is below it. */
    var nextId: TopicId

    ghost predicate Valid()
      reads this
    {
      (forall i :: 0 <= i < |rows| ==> rows[i].id < nextId) && IdsUnique(rows)
    }

    constructor ()
      ensures Valid() && rows == []
    {
      rows := [];
      nextId := 0;
    }

    method Add(caller: Auth.UserId, body: AddBody, defaults: Defaults) returns (reply: Reply)
      requires Valid()
      modifies this
      ensures Valid()
      ensures (reply, rows) == AddStep(old(rows), caller, body, defaults, old(nextId))
    {
      var topic := Topic(nextId, caller, body.subject, body.topicName, body.importance, defaults.status, defaults.lastStudied);
      rows := rows + [topic];
      nextId := nextId + 1;
      reply := Created(topic);
    }

    method All(caller: Auth.UserId) returns (reply: Reply)
      ensures reply == ListReply(rows, caller)
    {
      reply := Listed(Mine(rows, caller));
    }

    method Update(caller: Auth.UserId, id: TopicId, status: string, now: Millis) returns (reply: Reply)
      requires Valid()
      modifies this
      ensures Valid()
      ensures (reply, rows) == UpdateStep(old(rows), caller, id, status, now)
    {
      var found := FindOwned(rows, id, caller);
      if found.None? {
        return NotFound(TopicNotFound);
      }
      var i := found.value;
      var topic := rows[i].(status := status, lastStudied := Some(now));
      rows := rows[i := topic];
      reply := Updated(topic);
    }

    method Delete(caller: Auth.UserId, id: TopicId) returns (reply: Reply)
      requires Valid()
      modifies this
      ensures Valid()
      ensures (reply, rows) == DeleteStep(old(rows), caller, id)
      ensures reply.Deleted? ==> forall t :: t in rows ==> t.id != id
    {
      var found := FindOwned(rows, id, caller);
      if found.None? {
        return NotFound(TopicNotFound);
      }
      var i := found.value;
      DeleteRemovesTheRow(rows, caller, id);
      rows := rows[..i] + rows[i + 1..];
      reply := Deleted(TopicDeleted);
    }
  }

  // ---------------------------------------------------------------------------
  // Isolation between owners
  // ---------------------------------------------------------------------------

  /** Listing returns exactly the caller's rows, each as often as it is stored. */
  lemma ListIsExactlyMine(rows: seq<Topic>, caller: Auth.UserId)
    ensures forall t :: multiset(ListReply(rows, caller).topics)[t] == if t.userId == caller then multiset(rows)[t] else 0
  {
    FilterMultiset(rows, OwnedBy(caller));
  }

  /** Add stamps the caller as owner whatever `userId` the body carries. */
  lemma AddIgnoresBodyUserId(rows: seq<Topic>, caller: Auth.UserId, body: AddBody, forged: Auth.UserId,
                             defaults: Defaults, newId: TopicId)
    ensures AddStep(rows, caller, body.(userId := Some(forged)), defaults, newId) == AddStep(rows, caller, body, defaults, newId)
    ensures AddStep(rows, caller, body, defaults, newId).0.topic.userId == caller
  {
  }

  /** Add leaves every other owner's rows as they were and appends to the caller's. */
  lemma {:induction false} AddIsolation(rows: seq<Topic>, caller: Auth.UserId, body: AddBody, defaults: Defaults, newId: TopicId)
    ensures Mine(AddStep(rows, caller, body, defaults, newId).1, caller) == Mine(rows, caller) + [AddStep(rows, caller, body, defaults, newId).0.topic]
    ensures forall u :: u != caller ==> Mine(AddStep(rows, caller, body, defaults, newId).1, u) == Mine(rows, u)
  {
    var r := AddStep(rows, caller, body, defaults, newId);
    FilterAppend(rows, [r.0.topic], OwnedBy(caller));
    forall u | u != caller
      ensures Mine(r.1, u) == Mine(rows, u)
    {
      FilterAppend(rows, [r.0.topic], OwnedBy(u));
    }
  }

  /** Update leaves every other owner's rows as they were. */
  lemma {:induction false} UpdateIsolation(rows: seq<Topic>, caller: Auth.UserId, id: TopicId, status: string, now: Millis)
    ensures forall u :: u != caller ==> Mine(UpdateStep(rows, caller, id, status, now).1, u) == Mine(rows, u)
  {
    var r := UpdateStep(rows, caller, id, status, now);
    if r.0.Updated? {
      var i := FindOwned(rows, id, caller).value;
      forall u | u != caller
        ensures Mine(r.1, u) == Mine(rows, u)
      {
        FilterUpdateRejected(rows, i, r.0.topic, OwnedBy(u));
      }
    }
  }

  /** Delete leaves every other owner's rows as they were. */
  lemma {:induction false} DeleteIsolation(rows: seq<Topic>, caller: Auth.UserId, id: TopicId)
    ensures forall u :: u != caller ==> Mine(DeleteStep(rows, caller, id).1, u) == Mine(rows, u)
  {
    var r := DeleteStep(rows, caller, id);
    if r.0.Deleted? {
      var i := FindOwned(rows, id, caller).value;
      forall u | u != caller
        ensures Mine(r.1, u) == Mine(rows, u)
      {
        FilterRemoveRejected(rows, i, OwnedBy(u));
      }
    }
  }

  /** With unique ids, a successful delete leaves no row with that id. */
  lemma DeleteRemovesTheRow(rows: seq<Topic>, caller: Auth.UserId, id: TopicId)
    requires IdsUnique(rows)
    ensures IdsUnique(DeleteStep(rows, caller, id).1)
    ensures DeleteStep(rows, caller, id).0.Deleted? ==> forall t :: t in DeleteStep(rows, caller, id).1 ==> t.id != id
  {
    var r := DeleteStep(rows, caller, id);
    if r.0.Deleted? {
      var i := FindOwned(rows, id, caller).value;
      forall t | t in r.1 ensures t.id != id {
        var k :| 0 <= k < |r.1| && r.1[k] == t;
        if k < i { assert t == rows[k]; } else { assert t == rows[k + 1]; }
      }
    }
  }

  /** The caller's first row with a given id, looked up among the caller's rows only. */
  function FirstWithId(ts: seq<Topic>, id: TopicId): (r: Option<Topic>)
    ensures r.Some? ==> r.value in ts && r.value.id == id
    ensures r.None? <==> forall t :: t in ts ==> t.id != id
    decreases |ts|
  {
    if ts == [] then None
    else if ts[0].id == id then Some(ts[0])
    else FirstWithId(ts[1..], id)
  }

  /** The row the store finds for `(id, caller)` is the first row with that id among the caller's rows. */
  lemma {:induction false} FindOwnedSeesOnlyMine(rows: seq<Topic>, id: TopicId, caller: Auth.UserId)
    ensures FindOwned(rows, id, caller).None? ==> FirstWithId(Mine(rows, caller), id).None?
    ensures FindOwned(rows, id, caller).Some? ==> FirstWithId(Mine(rows, caller), id) == Some(rows[FindOwned(rows, id, caller).value])
    decreases |rows|
  {
    if rows != [] {
      FindOwnedSeesOnlyMine(rows[1..], id, caller);
    }
  }

  /**
   * What a caller is told depends only on the caller's own rows: two
   * collections that agree on them give the same replies to all four
   * handlers. Other owners' rows are therefore invisible, and a row owned by
   * someone else answers exactly like a missing one.
   */
  lemma {:induction false} RepliesDependOnlyOnCallersRows(rows1: seq<Topic>, rows2: seq<Topic>, caller: Auth.UserId,
                                                          id: TopicId, status: string, now: Millis,
                                                          body: AddBody, defaults: Defaults, newId: TopicId)
    requires Mine(rows1, caller) == Mine(rows2, caller)
    ensures ListReply(rows1, caller) == ListReply(rows2, caller)
    ensures UpdateStep(rows1, caller, id, status, now).0 == UpdateStep(rows2, caller, id, status, now).0
    ensures DeleteStep(rows1, caller, id).0 == DeleteStep(rows2, caller, id).0
    ensures AddStep(rows1, caller, body, defaults, newId).0 == AddStep(rows2, caller, body, defaults, newId).0
  {
    FindOwnedSeesOnlyMine(rows1, id, caller);
    FindOwnedSeesOnlyMine(rows2, id, caller);
  }

  /** Removing another owner's row changes nothing the caller can observe. */
  lemma ForeignRowIsInvisible(rows: seq<Topic>, j: nat, caller: Auth.UserId, id: TopicId, status: string, now: Millis)
    requires j < |rows| && rows[j].userId != caller
    ensures ListReply(rows[..j] + rows[j + 1..], caller) == ListReply(rows, caller)
    ensures UpdateStep(rows[..j] + rows[j + 1..], caller, id, status, now).0 == UpdateStep(rows, caller, id, status, now).0
    ensures DeleteStep(rows[..j] + rows[j + 1..], caller, id).0 == DeleteStep(rows, caller, id).0
  {
    FilterRemoveRejected(rows, j, OwnedBy(caller));
    RepliesDependOnlyOnCallersRows(rows[..j] + rows[j + 1..], rows, caller, id, status, now,
                                   AddBody("", "", "", None), Defaults("", None), 0);
  }

  /** A topic just added appears exactly once, at the end, in the caller's list, when its id is fresh. */
  lemma AddThenList(rows: seq<Topic>, caller: Auth.UserId, body: AddBody, defaults: Defaults, newId: TopicId)
    requires forall t :: t in rows ==> t.id != newId
    ensures var r := AddStep(rows, caller, body, defaults, newId);
      && ListReply(r.1, caller).topics == Mine(rows, caller) + [r.0.topic]
      && multiset(ListReply(r.1, caller).topics)[r.0.topic] == 1
      && r.0.topic.subject == body.subject && r.0.topic.topicName == body.topicName
      && r.0.topic.importance == body.importance
  {
    var r := AddStep(rows, caller, body, defaults, newId);
    AddIsolation(rows, caller, body, defaults, newId);
    assert r.0.topic !in Mine(rows, caller);
    assert multiset(Mine(rows, caller) + [r.0.topic]) == multiset(Mine(rows, caller)) + multiset{r.0.topic};
  }
}
