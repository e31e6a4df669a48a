/**
 * The two SQLite tables as an in-memory store. `events` holds the event
 * rows in rowid order, with AUTOINCREMENT ids and the UNIQUE(title, date)
 * constraint; `participants` holds one row per (event, user), replaced by
 * INSERT OR REPLACE (which deletes the old row and appends a new one).
 * The schema declares the participants' foreign key ON DELETE CASCADE, but
 * no connection enables `PRAGMA foreign_keys`, so SQLite does not enforce it:
 * `DeleteEventRow` is the delete as it runs, `DeleteEvent` the cascading
 * delete the schema asks for.
 */
module Store {
  import opened Wrappers
  import opened Text

  datatype EventRow = EventRow(id: int, title: String, description: String, date: String,
                               imageId: Option<String>, messageId: Option<int>)

  /** The two values `participation_status` takes: "Участвую" and "Не участвую". */
  datatype Status = Participating | NotParticipating

  datatype ParticipantRow = ParticipantRow(eventId: int, userId: int, username: String, status: Status)

  // ---------------------------------------------------------------- queries on the tables

  /** `SELECT ... FROM events WHERE event_id = ?`. */
  function FindEvent(events: seq<EventRow>, id: int): (r: Option<EventRow>)
    ensures r.Some? ==> r.value in events && r.value.id == id
    ensures r.None? ==> forall i :: 0 <= i < |events| ==> events[i].id != id
  {
    if events == [] then None
    else if events[0].id == id then Some(events[0])
    else FindEvent(events[1..], id)
  }

  /** An event with this title and date is already stored. */
  predicate Clashes(events: seq<EventRow>, title: String, date: String) {
    exists i :: 0 <= i < |events| && events[i].title == title && events[i].date == date
  }

  /** `SELECT participation_status FROM participants WHERE event_id = ? AND user_id = ?`. */
  function StatusOf(ps: seq<ParticipantRow>, eventId: int, userId: int): Option<Status> {
    if ps == [] then None
    else if ps[0].eventId == eventId && ps[0].userId == userId then Some(ps[0].status)
    else StatusOf(ps[1..], eventId, userId)
  }

  /** `COUNT(*)` of the event's rows with the given status. */
  function CountStatus(ps: seq<ParticipantRow>, eventId: int, status: Status): nat {
    if ps == [] then 0
    else (if ps[0].eventId == eventId && ps[0].status == status then 1 else 0) + CountStatus(ps[1..], eventId, status)
  }

  /** The usernames of the event's rows marked as participating, in table order. */
  function Participants(ps: seq<ParticipantRow>, eventId: int): seq<String> {
    if ps == [] then []
    else
      var head := if ps[0].eventId == eventId && ps[0].status == Participating then [ps[0].username] else [];
      head + Participants(ps[1..], eventId)
  }

  // ---------------------------------------------------------------- updates of the tables

  /** `DELETE FROM events WHERE event_id = ?`. */
  function WithoutEvent(events: seq<EventRow>, id: int): seq<EventRow> {
    if events == [] then []
    else (if events[0].id == id then [] else [events[0]]) + WithoutEvent(events[1..], id)
  }

  /** `UPDATE events SET message_id = ? WHERE event_id = ?`. */
  function WithMessageId(events: seq<EventRow>, id: int, messageId: int): seq<EventRow> {
    if events == [] then []
    else
      var head := if events[0].id == id then events[0].(messageId := Some(messageId)) else events[0];
      [head] + WithMessageId(events[1..], id, messageId)
  }

  /** The participants' rows without the row of one (event, user) pair. */
  function WithoutPair(ps: seq<ParticipantRow>, eventId: int, userId: int): seq<ParticipantRow> {
    if ps == [] then []
    else
      var head := if ps[0].eventId == eventId && ps[0].userId == userId then [] else [ps[0]];
      head + WithoutPair(ps[1..], eventId, userId)
  }

  /** The participants' rows without any row of one event: what ON DELETE CASCADE would remove. */
  function WithoutParticipantsOf(ps: seq<ParticipantRow>, eventId: int): seq<ParticipantRow> {
    if ps == [] then []
    else (if ps[0].eventId == eventId then [] else [ps[0]]) + WithoutParticipantsOf(ps[1..], eventId)
  }

  // ---------------------------------------------------------------- the constraints

  /** AUTOINCREMENT: the rows' ids increase in table order and none exceeds the last id handed out. */
  predicate IdsIssued(events: seq<EventRow>, lastId: int) {
    (forall i :: 0 <= i < |events| ==> 1 <= events[i].id <= lastId)
    && (forall i, j :: 0 <= i < j < |events| ==> events[i].id < events[j].id)
  }

  /** UNIQUE(title, date). */
  predicate UniqueTitleDate(events: seq<EventRow>) {
    forall i, j :: 0 <= i < j < |events| ==> events[i].title != events[j].title || events[i].date != events[j].date
  }

  /** PRIMARY KEY (event_id, user_id). */
  predicate UniquePairs(ps: seq<ParticipantRow>) {
    forall i, j :: 0 <= i < j < |ps| ==> ps[i].eventId != ps[j].eventId || ps[i].userId != ps[j].userId
  }

  /** The foreign key: every participant row belongs to a stored event. */
  predicate Referential(events: seq<EventRow>, ps: seq<ParticipantRow>) {
    forall i :: 0 <= i < |ps| ==> FindEvent(events, ps[i].eventId).Some?
  }

  /** No participant row refers to an id that has not been handed out yet. */
  predicate NoFutureRefs(ps: seq<ParticipantRow>, lastId: int) {
    forall i :: 0 <= i < |ps| ==> ps[i].eventId <= lastId
  }

  class EventStore {
    var events: seq<EventRow>
    var participants: seq<ParticipantRow>
    /** The table's entry in `sqlite_sequence`: the largest id ever handed out. */
    var lastId: int

    /** What the schema's constraints guarantee of every state. */
    ghost predicate Valid()
      reads this
    {
      lastId >= 0 && IdsIssued(events, lastId) && UniqueTitleDate(events) && UniquePairs(participants)
    }

    constructor ()
      ensures Valid() && events == [] && participants == [] && lastId == 0
    {
      events := [];
      participants := [];
      lastId := 0;
    }

    /**
     * `INSERT INTO events (title, description, date, image_id)`: an
     * IntegrityError (None) when the title and date are taken; otherwise the
     * row is appended with the next id and no message id yet.
     */
    method InsertEvent(title: String, description: String, date: String, imageId: Option<String>)
      returns (id: Option<int>)
      requires Valid()
      modifies this
      ensures Valid()
      ensures Clashes(old(events), title, date) ==> id.None? && unchanged(this)
      ensures !Clashes(old(events), title, date) ==>
        id == Some(old(lastId) + 1) && lastId == old(lastId) + 1
        && events == old(events) + [EventRow(old(lastId) + 1, title, description, date, imageId, None)]
        && participants == old(participants)
    {
      if Clashes(events, title, date) {
        return None;
      }
      lastId := lastId + 1;
      events := events + [EventRow(lastId, title, description, date, imageId, None)];
      id := Some(lastId);
    }

    /** `UPDATE events SET message_id = ? WHERE event_id = ?`. */
    method SetMessageId(id: int, messageId: int)
      requires Valid()
      modifies this
      ensures Valid()
      ensures events == WithMessageId(old(events), id, messageId)
      ensures participants == old(participants) && lastId == old(lastId)
    {
      WithMessageIdKeepsKeys(events, id, messageId);
      events := WithMessageId(events, id, messageId);
    }

    /** `DELETE FROM events WHERE event_id = ?` as SQLite runs it here: the participants stay. */
    method DeleteEventRow(id: int)
      requires Valid()
      modifies this
      ensures Valid()
      ensures events == WithoutEvent(old(events), id)
      ensures participants == old(participants) && lastId == old(lastId)
    {
      WithoutEventKeepsConstraints(events, id, lastId);
      events := WithoutEvent(events, id);
    }

    /** The delete the schema declares: the event's participants go with it. */
    method DeleteEvent(id: int)
      requires Valid()
      modifies this
      ensures Valid()
      ensures events == WithoutEvent(old(events), id)
      ensures participants == WithoutParticipantsOf(old(participants), id)
      ensures lastId == old(lastId)
    {
      WithoutEventKeepsConstraints(events, id, lastId);
      WithoutParticipantsOfKeepsUnique(participants, id);
      events := WithoutEvent(events, id);
      participants := WithoutParticipantsOf(participants, id);
    }

    /** `INSERT OR REPLACE INTO participants`: the pair's old row, if any, is deleted and the new one appended. */
    method Upsert(eventId: int, userId: int, username: String, status: Status)
      requires Valid()
      modifies this
      ensures Valid()
      ensures participants == WithoutPair(old(participants), eventId, userId) + [ParticipantRow(eventId, userId, username, status)]
      ensures events == old(events) && lastId == old(lastId)
    {
      UpsertKeepsPairsUnique(participants, eventId, userId, username, status);
      participants := WithoutPair(participants, eventId, userId) + [ParticipantRow(eventId, userId, username, status)];
    }
  }

  // ---------------------------------------------------------------- the constraints survive every update

  lemma {:induction false} WithMessageIdKeepsKeys(events: seq<EventRow>, id: int, messageId: int)
    ensures |WithMessageId(events, id, messageId)| == |events|
    ensures forall i :: 0 <= i < |events| ==>
      var r := WithMessageId(events, id, messageId)[i];
      r.id == events[i].id && r.title == events[i].title && r.date == events[i].date
  {
    if events != [] {
      WithMessageIdKeepsKeys(events[1..], id, messageId);
    }
  }

  /** The rows a delete keeps are exactly the rows with another id. */
  lemma {:induction false} WithoutEventMembers(events: seq<EventRow>, id: int)
    ensures forall e :: e in WithoutEvent(events, id) <==> e in events && e.id != id
  {
    if events != [] {
      WithoutEventMembers(events[1..], id);
      assert events == [events[0]] + events[1..];
    }
  }

  lemma ConsKeepsEvents(x: EventRow, r: seq<EventRow>, lastId: int)
    requires 1 <= x.id <= lastId && IdsIssued(r, lastId) && UniqueTitleDate(r)
    requires forall e :: e in r ==> x.id < e.id && (x.title != e.title || x.date != e.date)
    ensures IdsIssued([x] + r, lastId) && UniqueTitleDate([x] + r)
  {
    var s := [x] + r;
    assert forall j :: 1 <= j < |s| ==> s[j] == r[j - 1] && r[j - 1] in r;
  }

  lemma {:induction false} WithoutEventKeepsConstraints(events: seq<EventRow>, id: int, lastId: int)
    requires IdsIssued(events, lastId) && UniqueTitleDate(events)
    ensures IdsIssued(WithoutEvent(events, id), lastId) && UniqueTitleDate(WithoutEvent(events, id))
  {
    if events != [] {
      var x, r := events[0], events[1..];
      assert IdsIssued(r, lastId) && UniqueTitleDate(r) by {
        assert forall j :: 0 <= j < |r| ==> r[j] == events[j + 1];
      }
      WithoutEventKeepsConstraints(r, id, lastId);
      if x.id != id {
        WithoutEventMembers(r, id);
        assert forall e :: e in r ==> x.id < e.id && (x.title != e.title || x.date != e.date) by {
          forall e | e in r ensures x.id < e.id && (x.title != e.title || x.date != e.date) {
            var j :| 0 <= j < |r| && r[j] == e;
            assert events[j + 1] == e;
          }
        }
        ConsKeepsEvents(x, WithoutEvent(r, id), lastId);
      }
    }
  }

  /** The participant rows a filter keeps are the rows it does not name. */
  lemma {:induction false} WithoutPairMembers(ps: seq<ParticipantRow>, eventId: int, userId: int)
    ensures forall p :: p in WithoutPair(ps, eventId, userId) <==> p in ps && (p.eventId != eventId || p.userId != userId)
  {
    if ps != [] {
      WithoutPairMembers(ps[1..], eventId, userId);
      assert ps == [ps[0]] + ps[1..];
    }
  }

  lemma {:induction false} WithoutParticipantsOfMembers(ps: seq<ParticipantRow>, eventId: int)
    ensures forall p :: p in WithoutParticipantsOf(ps, eventId) <==> p in ps && p.eventId != eventId
  {
    if ps != [] {
      WithoutParticipantsOfMembers(ps[1..], eventId);
      assert ps == [ps[0]] + ps[1..];
    }
  }

  lemma ConsKeepsPairs(x: ParticipantRow, r: seq<ParticipantRow>)
    requires UniquePairs(r)
    requires forall p :: p in r ==> x.eventId != p.eventId || x.userId != p.userId
    ensures UniquePairs([x] + r)
  {
    var s := [x] + r;
    assert forall j :: 1 <= j < |s| ==> s[j] == r[j - 1] && r[j - 1] in r;
  }

  /** The head of a table with unique pairs is the only row of its pair. */
  lemma UniquePairsTail(ps: seq<ParticipantRow>)
    requires ps != [] && UniquePairs(ps)
    ensures UniquePairs(ps[1..])
    ensures forall p :: p in ps[1..] ==> p.eventId != ps[0].eventId || p.userId != ps[0].userId
  {
    var r := ps[1..];
    assert forall j :: 0 <= j < |r| ==> r[j] == ps[j + 1];
  }

  lemma {:induction false} WithoutPairKeepsUnique(ps: seq<ParticipantRow>, eventId: int, userId: int)
    requires UniquePairs(ps)
    ensures UniquePairs(WithoutPair(ps, eventId, userId))
  {
    if ps != [] {
      UniquePairsTail(ps);
      WithoutPairKeepsUnique(ps[1..], eventId, userId);
      if !(ps[0].eventId == eventId && ps[0].userId == userId) {
        WithoutPairMembers(ps[1..], eventId, userId);
        ConsKeepsPairs(ps[0], WithoutPair(ps[1..], eventId, userId));
      }
    }
  }

  lemma {:induction false} WithoutParticipantsOfKeepsUnique(ps: seq<ParticipantRow>, eventId: int)
    requires UniquePairs(ps)
    ensures UniquePairs(WithoutParticipantsOf(ps, eventId))
  {
    if ps != [] {
      UniquePairsTail(ps);
      WithoutParticipantsOfKeepsUnique(ps[1..], eventId);
      if ps[0].eventId != eventId {
        WithoutParticipantsOfMembers(ps[1..], eventId);
        ConsKeepsPairs(ps[0], WithoutParticipantsOf(ps[1..], eventId));
      }
    }
  }

  lemma UpsertKeepsPairsUnique(ps: seq<ParticipantRow>, eventId: int, userId: int, username: String, status: Status)
    requires UniquePairs(ps)
    ensures UniquePairs(WithoutPair(ps, eventId, userId) + [ParticipantRow(eventId, userId, username, status)])
  {
    var r := WithoutPair(ps, eventId, userId);
    WithoutPairKeepsUnique(ps, eventId, userId);
    WithoutPairMembers(ps, eventId, userId);
    var s := r + [ParticipantRow(eventId, userId, username, status)];
    assert forall j :: 0 <= j < |r| ==> s[j] == r[j] && r[j] in r;
  }

  // ---------------------------------------------------------------- what an RSVP write does to the answers

  lemma {:induction false} StatusOfAppend(a: seq<ParticipantRow>, b: seq<ParticipantRow>, eventId: int, userId: int)
    ensures StatusOf(a + b, eventId, userId)
      == if StatusOf(a, eventId, userId).Some? then StatusOf(a, eventId, userId) else StatusOf(b, eventId, userId)
  {
    if a == [] {
      assert a + b == b;
    } else {
      assert (a + b)[0] == a[0] && (a + b)[1..] == a[1..] + b;
      StatusOfAppend(a[1..], b, eventId, userId);
    }
  }

  lemma {:induction false} StatusOfWithoutPair(ps: seq<ParticipantRow>, eventId: int, userId: int, e: int, u: int)
    ensures StatusOf(WithoutPair(ps, eventId, userId), e, u)
      == if e == eventId && u == userId then None else StatusOf(ps, e, u)
  {
    if ps != [] {
      StatusOfWithoutPair(ps[1..], eventId, userId, e, u);
      var head := if ps[0].eventId == eventId && ps[0].userId == userId then [] else [ps[0]];
      StatusOfAppend(head, WithoutPair(ps[1..], eventId, userId), e, u);
    }
  }

  /**
   * After `INSERT OR REPLACE` the user's status for the event is the one
   * written, and every other (event, user) pair reads as before.
   */
  lemma StatusAfterUpsert(ps: seq<ParticipantRow>, eventId: int, userId: int, username: String, status: Status, e: int, u: int)
    ensures StatusOf(WithoutPair(ps, eventId, userId) + [ParticipantRow(eventId, userId, username, status)], e, u)
      == if e == eventId && u == userId then Some(status) else StatusOf(ps, e, u)
  {
    StatusOfWithoutPair(ps, eventId, userId, e, u);
    StatusOfAppend(WithoutPair(ps, eventId, userId), [ParticipantRow(eventId, userId, username, status)], e, u);
  }

  lemma {:induction false} CountAppend(a: seq<ParticipantRow>, b: seq<ParticipantRow>, eventId: int, status: Status)
    ensures CountStatus(a + b, eventId, status) == CountStatus(a, eventId, status) + CountStatus(b, eventId, status)
  {
    if a == [] {
      assert a + b == b;
    } else {
      assert (a + b)[0] == a[0] && (a + b)[1..] == a[1..] + b;
      CountAppend(a[1..], b, eventId, status);
    }
  }

  lemma {:induction false} StatusOfAbsent(ps: seq<ParticipantRow>, eventId: int, userId: int)
    requires forall p :: p in ps ==> p.eventId != eventId || p.userId != userId
    ensures StatusOf(ps, eventId, userId) == None
  {
    if ps != [] {
      assert ps[0] in ps;
      assert forall p :: p in ps[1..] ==> p in ps;
      StatusOfAbsent(ps[1..], eventId, userId);
    }
  }

  lemma {:induction false} CountWithoutPair(ps: seq<ParticipantRow>, eventId: int, userId: int, e: int, status: Status)
    requires UniquePairs(ps)
    ensures CountStatus(WithoutPair(ps, eventId, userId), e, status)
      + (if e == eventId && StatusOf(ps, eventId, userId) == Some(status) then 1 else 0)
      == CountStatus(ps, e, status)
  {
    if ps != [] {
      UniquePairsTail(ps);
      CountWithoutPair(ps[1..], eventId, userId, e, status);
      if ps[0].eventId == eventId && ps[0].userId == userId {
        StatusOfAbsent(ps[1..], eventId, userId);
        assert WithoutPair(ps, eventId, userId) == WithoutPair(ps[1..], eventId, userId);
      } else {
        assert CountStatus([ps[0]], e, status) == if ps[0].eventId == e && ps[0].status == status then 1 else 0 by {
          assert [ps[0]][1..] == [];
        }
        CountAppend([ps[0]], WithoutPair(ps[1..], eventId, userId), e, status);
      }
    }
  }

  /**
   * The counts the RSVP buttons show after `INSERT OR REPLACE`: the user's
   * old status loses one, the new status gains one, and every other event's
   * counts are untouched.
   */
  lemma CountAfterUpsert(ps: seq<ParticipantRow>, eventId: int, userId: int, username: String, status: Status, e: int, counted: Status)
    requires UniquePairs(ps)
    ensures CountStatus(WithoutPair(ps, eventId, userId) + [ParticipantRow(eventId, userId, username, status)], e, counted)
      == CountStatus(ps, e, counted)
         - (if e == eventId && StatusOf(ps, eventId, userId) == Some(counted) then 1 else 0)
         + (if e == eventId && status == counted then 1 else 0)
  {
    CountWithoutPair(ps, eventId, userId, e, counted);
    CountAppend(WithoutPair(ps, eventId, userId), [ParticipantRow(eventId, userId, username, status)], e, counted);
  }

  /** The names `view_event` lists are exactly the rows the "participating" counter counts. */
  lemma {:induction false} ParticipantsCounted(ps: seq<ParticipantRow>, eventId: int)
    ensures |Participants(ps, eventId)| == CountStatus(ps, eventId, Participating)
  {
    if ps != [] {
      ParticipantsCounted(ps[1..], eventId);
    }
  }

  // ---------------------------------------------------------------- the foreign key

  /** Adding an event keeps every participant row's event. */
  lemma InsertKeepsReferential(events: seq<EventRow>, ps: seq<ParticipantRow>, x: EventRow)
    requires Referential(events, ps)
    ensures Referential(events + [x], ps)
  {
    forall i | 0 <= i < |ps| ensures FindEvent(events + [x], ps[i].eventId).Some? {
      var r := FindEvent(events, ps[i].eventId).value;
      var k :| 0 <= k < |events| && events[k] == r;
      assert (events + [x])[k] == r;
    }
  }

  /** Recording a status for a stored event keeps every participant row's event. */
  lemma UpsertKeepsReferential(events: seq<EventRow>, ps: seq<ParticipantRow>, eventId: int, userId: int, username: String, status: Status)
    requires Referential(events, ps) && FindEvent(events, eventId).Some?
    ensures Referential(events, WithoutPair(ps, eventId, userId) + [ParticipantRow(eventId, userId, username, status)])
  {
    var r := WithoutPair(ps, eventId, userId);
    WithoutPairMembers(ps, eventId, userId);
    forall p | p in r ensures FindEvent(events, p.eventId).Some? {
      var k :| 0 <= k < |ps| && ps[k] == p;
    }
    var s := r + [ParticipantRow(eventId, userId, username, status)];
    assert forall j :: 0 <= j < |r| ==> s[j] == r[j] && r[j] in r;
  }

  /** A row survives the delete of another event, so any stored id other than the deleted one is still found. */
  lemma FindAfterDelete(events: seq<EventRow>, id: int, x: int)
    requires FindEvent(events, x).Some? && x != id
    ensures FindEvent(WithoutEvent(events, id), x).Some?
  {
    WithoutEventMembers(events, id);
    var r := FindEvent(events, x).value;
    assert r in WithoutEvent(events, id);
    var k :| 0 <= k < |WithoutEvent(events, id)| && WithoutEvent(events, id)[k] == r;
  }

  /**
   * `DELETE FROM events WHERE event_id = ?` removes exactly that event:
   * its id is no longer found, and every other id finds the row it found
   * before.
   */
  lemma {:induction false} FindAfterDeleteEvent(events: seq<EventRow>, id: int, x: int)
    ensures FindEvent(WithoutEvent(events, id), x) == if x == id then None else FindEvent(events, x)
  {
    if events != [] {
      FindAfterDeleteEvent(events[1..], id, x);
      var rest := WithoutEvent(events[1..], id);
      if events[0].id == id {
        assert WithoutEvent(events, id) == rest;
      } else {
        var w := [events[0]] + rest;
        assert WithoutEvent(events, id) == w;
        assert w[0] == events[0] && w[1..] == rest;
      }
    }
  }

  /**
   * Recording a status for a stored event keeps every participant row on
   * an id already handed out, even with rows left behind by deletes.
   */
  lemma UpsertKeepsNoFutureRefs(events: seq<EventRow>, ps: seq<ParticipantRow>, lastId: int,
                                eventId: int, userId: int, username: String, status: Status)
    requires IdsIssued(events, lastId) && NoFutureRefs(ps, lastId) && FindEvent(events, eventId).Some?
    ensures NoFutureRefs(WithoutPair(ps, eventId, userId) + [ParticipantRow(eventId, userId, username, status)], lastId)
  {
    var r := WithoutPair(ps, eventId, userId);
    WithoutPairMembers(ps, eventId, userId);
    forall p | p in r ensures p.eventId <= lastId {
      var k :| 0 <= k < |ps| && ps[k] == p;
    }
    var e := FindEvent(events, eventId).value;
    var k :| 0 <= k < |events| && events[k] == e;
    var t := r + [ParticipantRow(eventId, userId, username, status)];
    assert forall j :: 0 <= j < |r| ==> t[j] == r[j] && r[j] in r;
  }

  /**
   * The schema's ON DELETE CASCADE: deleting an event together with its
   * participant rows keeps every remaining row's event.
   */
  lemma DeleteEventKeepsReferential(events: seq<EventRow>, ps: seq<ParticipantRow>, id: int)
    requires Referential(events, ps)
    ensures Referential(WithoutEvent(events, id), WithoutParticipantsOf(ps, id))
  {
    var qs := WithoutParticipantsOf(ps, id);
    WithoutParticipantsOfMembers(ps, id);
    forall i | 0 <= i < |qs| ensures FindEvent(WithoutEvent(events, id), qs[i].eventId).Some? {
      assert qs[i] in qs;
      var k :| 0 <= k < |ps| && ps[k] == qs[i];
      FindAfterDelete(events, id, qs[i].eventId);
    }
  }

  /**
   * The delete as it runs, with foreign keys off: an event that had any
   * participant row leaves that row behind without its event.
   */
  lemma DeleteEventRowLeavesOrphans(events: seq<EventRow>, ps: seq<ParticipantRow>, id: int, i: int)
    requires 0 <= i < |ps| && ps[i].eventId == id
    ensures !Referential(WithoutEvent(events, id), ps)
    ensures CountStatus(ps, id, ps[i].status) > 0
  {
    WithoutEventMembers(events, id);
    var w := WithoutEvent(events, id);
    if FindEvent(w, id).Some? {
      assert false;
    }
    CountPositive(ps, i);
  }

  lemma {:induction false} CountPositive(ps: seq<ParticipantRow>, i: int)
    requires 0 <= i < |ps|
    ensures CountStatus(ps, ps[i].eventId, ps[i].status) > 0
  {
    if i > 0 {
      CountPositive(ps[1..], i - 1);
    }
  }

  /** With the cascade, nothing of the deleted event can be read back. */
  lemma {:induction false} DeleteEventClearsParticipants(ps: seq<ParticipantRow>, id: int, userId: int, status: Status)
    ensures StatusOf(WithoutParticipantsOf(ps, id), id, userId) == None
    ensures CountStatus(WithoutParticipantsOf(ps, id), id, status) == 0
  {
    if ps != [] {
      DeleteEventClearsParticipants(ps[1..], id, userId, status);
      var head := if ps[0].eventId == id then [] else [ps[0]];
      StatusOfAppend(head, WithoutParticipantsOf(ps[1..], id), id, userId);
      CountAppend(head, WithoutParticipantsOf(ps[1..], id), id, status);
    }
  }

  /** A foreign key that holds keeps every participant row on an id already handed out. */
  lemma ReferentialBounded(events: seq<EventRow>, ps: seq<ParticipantRow>, lastId: int)
    requires IdsIssued(events, lastId) && Referential(events, ps)
    ensures NoFutureRefs(ps, lastId)
  {
    forall i | 0 <= i < |ps| ensures ps[i].eventId <= lastId {
      var r := FindEvent(events, ps[i].eventId).value;
      var k :| 0 <= k < |events| && events[k] == r;
    }
  }

  /**
   * AUTOINCREMENT never hands out an id twice, so even rows left behind by
   * a delete never count towards an event created later: the next event
   * starts with no status and no counts.
   */
  lemma {:induction false} FreshEventUnjoined(ps: seq<ParticipantRow>, lastId: int, userId: int, status: Status)
    requires NoFutureRefs(ps, lastId)
    ensures StatusOf(ps, lastId + 1, userId) == None
    ensures CountStatus(ps, lastId + 1, status) == 0
  {
    if ps != [] {
      assert NoFutureRefs(ps[1..], lastId) by {
        assert forall j :: 0 <= j < |ps| - 1 ==> ps[1..][j] == ps[j + 1];
      }
      FreshEventUnjoined(ps[1..], lastId, userId, status);
    }
  }

  /** After a message id is set, every id is found as before; the updated event now carries the message id. */
  lemma {:induction false} FindAfterSetMessageId(events: seq<EventRow>, id: int, messageId: int, x: int)
    ensures FindEvent(WithMessageId(events, id, messageId), x).Some? == FindEvent(events, x).Some?
    ensures FindEvent(events, x).Some? ==>
      FindEvent(WithMessageId(events, id, messageId), x).value
      == (if x == id then FindEvent(events, x).value.(messageId := Some(messageId)) else FindEvent(events, x).value)
  {
    if events != [] {
      FindAfterSetMessageId(events[1..], id, messageId, x);
      var w := WithMessageId(events, id, messageId);
      assert w[0].id == events[0].id;
      assert w[1..] == WithMessageId(events[1..], id, messageId);
    }
  }

  /** Setting a message id keeps every participant row's event. */
  lemma WithMessageIdKeepsReferential(events: seq<EventRow>, ps: seq<ParticipantRow>, id: int, messageId: int)
    requires Referential(events, ps)
    ensures Referential(WithMessageId(events, id, messageId), ps)
  {
    forall i | 0 <= i < |ps| ensures FindEvent(WithMessageId(events, id, messageId), ps[i].eventId).Some? {
      FindAfterSetMessageId(events, id, messageId, ps[i].eventId);
    }
  }

  /** Setting the message id of the event just appended changes that row only. */
  lemma {:induction false} WithMessageIdOfLast(events: seq<EventRow>, x: EventRow, messageId: int)
    requires forall i :: 0 <= i < |events| ==> events[i].id != x.id
    ensures WithMessageId(events + [x], x.id, messageId) == events + [x.(messageId := Some(messageId))]
  {
    if events == [] {
      assert [x][1..] == [];
    } else {
      WithMessageIdOfLast(events[1..], x, messageId);
      assert (events + [x])[0] == events[0];
      assert (events + [x])[1..] == events[1..] + [x];
      assert events + [x.(messageId := Some(messageId))] == [events[0]] + (events[1..] + [x.(messageId := Some(messageId))]);
    }
  }

  /** Deleting the event just appended gives back the table as it was: the insert is undone. */
  lemma {:induction false} WithoutLastEvent(events: seq<EventRow>, x: EventRow)
    requires forall i :: 0 <= i < |events| ==> events[i].id != x.id
    ensures WithoutEvent(events + [x], x.id) == events
  {
    if events == [] {
      assert [x][1..] == [];
    } else {
      WithoutLastEvent(events[1..], x);
      assert (events + [x])[0] == events[0];
      assert (events + [x])[1..] == events[1..] + [x];
      assert events == [events[0]] + events[1..];
    }
  }

  // ---------------------------------------------------------------- ORDER BY date

  /** SQLite's BINARY collation on the date text: code point by code point, a prefix first. */
  predicate TextLe(a: String, b: String) {
    if a == [] then true
    else if b == [] then false
    else if a[0] != b[0] then a[0] < b[0]
    else TextLe(a[1..], b[1..])
  }

  lemma {:induction false} TextLeTotal(a: String, b: String)
    ensures TextLe(a, b) || TextLe(b, a)
  {
    if a != [] && b != [] && a[0] == b[0] {
      TextLeTotal(a[1..], b[1..]);
    }
  }

  lemma {:induction false} TextLeTransitive(a: String, b: String, c: String)
    requires TextLe(a, b) && TextLe(b, c)
    ensures TextLe(a, c)
  {
    if a != [] && b != [] && c != [] && a[0] == b[0] && b[0] == c[0] {
      TextLeTransitive(a[1..], b[1..], c[1..]);
    }
  }

  /** Rows in the order `ORDER BY date` returns them. */
  predicate SortedByDate(rows: seq<EventRow>) {
    forall i, j :: 0 <= i < j < |rows| ==> TextLe(rows[i].date, rows[j].date)
  }

  /** Puts a row before the first row whose date it does not follow. */
  function InsertByDate(x: EventRow, rows: seq<EventRow>): seq<EventRow> {
    if rows == [] || TextLe(x.date, rows[0].date) then [x] + rows
    else [rows[0]] + InsertByDate(x, rows[1..])
  }

  /** The event list `show_events` reads: every row, ordered by its date text. */
  function SortByDate(rows: seq<EventRow>): seq<EventRow> {
    if rows == [] then [] else InsertByDate(rows[0], SortByDate(rows[1..]))
  }

  lemma {:induction false} InsertByDatePermutes(x: EventRow, rows: seq<EventRow>)
    ensures multiset(InsertByDate(x, rows)) == multiset(rows) + multiset{x}
  {
    if rows != [] && !TextLe(x.date, rows[0].date) {
      InsertByDatePermutes(x, rows[1..]);
      assert rows == [rows[0]] + rows[1..];
    }
  }

  lemma {:induction false} InsertByDateSorted(x: EventRow, rows: seq<EventRow>)
    requires SortedByDate(rows)
    ensures SortedByDate(InsertByDate(x, rows))
  {
    if rows == [] {
    } else if TextLe(x.date, rows[0].date) {
      var s := [x] + rows;
      forall j | 1 <= j < |s| ensures TextLe(x.date, s[j].date) {
        if j > 1 {
          TextLeTransitive(x.date, rows[0].date, rows[j - 1].date);
        }
      }
    } else {
      var head, tail := rows[0], rows[1..];
      assert SortedByDate(tail) by {
        assert forall j :: 0 <= j < |tail| ==> tail[j] == rows[j + 1];
      }
      InsertByDateSorted(x, tail);
      InsertByDatePermutes(x, tail);
      TextLeTotal(x.date, head.date);
      var t := InsertByDate(x, tail);
      forall j | 0 <= j < |t| ensures TextLe(head.date, t[j].date) {
        assert t[j] in multiset(t);
        if t[j] != x {
          assert t[j] in multiset(tail);
          var k :| 0 <= k < |tail| && tail[k] == t[j];
          assert rows[k + 1] == t[j];
        }
      }
      ConsSorted(head, t);
    }
  }

  lemma ConsSorted(x: EventRow, rows: seq<EventRow>)
    requires SortedByDate(rows)
    requires forall j :: 0 <= j < |rows| ==> TextLe(x.date, rows[j].date)
    ensures SortedByDate([x] + rows)
  {
    var s := [x] + rows;
    assert forall j :: 1 <= j < |s| ==> s[j] == rows[j - 1];
  }

  /** `ORDER BY date` returns every stored row once, ordered by the date text. */
  lemma {:induction false} SortByDateCorrect(rows: seq<EventRow>)
    ensures SortedByDate(SortByDate(rows))
    ensures multiset(SortByDate(rows)) == multiset(rows)
  {
    if rows != [] {
      SortByDateCorrect(rows[1..]);
      InsertByDateSorted(rows[0], SortByDate(rows[1..]));
      InsertByDatePermutes(rows[0], SortByDate(rows[1..]));
      assert rows == [rows[0]] + rows[1..];
    }
  }

  /**
   * The stored dates are `DD.MM.YYYY HH:MM`, so the text order is by day of
   * the month first: an event on 1 February 2025 is listed before one on
   * 2 January 2025.
   */
  lemma DateTextOrderIsNotChronological(early: EventRow, late: EventRow)
    requires early.date == "02.01.2025 10:00" && late.date == "01.02.2025 10:00"
    ensures SortByDate([early, late]) == [late, early]
  {
    var a, b := early.date, late.date;
    assert a[0] == b[0] == '0' && a[1] == '2' && b[1] == '1';
    assert TextLe(b, a) by { assert TextLe(b[1..], a[1..]); }
    assert !TextLe(a, b) by { assert !TextLe(a[1..], b[1..]); }
    assert [early, late][1..] == [late];
    assert SortByDate([late]) == [late] by { assert [late][1..] == []; }
    assert InsertByDate(early, [late]) == [late, early] by {
      assert [late][1..] == [];
      assert InsertByDate(early, []) == [early];
    }
  }
}
