/**
 * Answers to calendar events: one per user per event, with a status out of four, the three
 * attendance scopes that divide those statuses between them, and the re-broadcast of the
 * event's answer list after every save.
 */
module EventRsvps {
  import opened Wrappers
  import opened Text
  import Seqs

  const Yes: string := "yes"
  const No: string := "no"
  const Maybe: string := "maybe"
  const Tentative: string := "tentative"
  const Statuses: seq<string> := [Yes, No, Maybe, Tentative]

  datatype Rsvp = Rsvp(id: nat, eventId: nat, userId: nat, status: string, note: Option<string>)

  /** The `attending` scope. */
  predicate Attending(r: Rsvp) { r.status == Yes }
  /** The `not_attending` scope. */
  predicate NotAttending(r: Rsvp) { r.status == No }
  /** The `maybe_attending` scope: maybe or tentative. */
  predicate MaybeAttending(r: Rsvp) { r.status == Maybe || r.status == Tentative }

  /** A valid status falls in exactly one scope; any other falls in none. */
  lemma ScopesPartition(r: Rsvp)
    ensures r.status in Statuses <==> Attending(r) || NotAttending(r) || MaybeAttending(r)
    ensures !(Attending(r) && NotAttending(r)) && !(Attending(r) && MaybeAttending(r))
    ensures !(NotAttending(r) && MaybeAttending(r))
  {
  }

  /** Over valid rows the three scopes' counts add up to the number of rows. */
  lemma {:induction false} ScopeCounts(rows: seq<Rsvp>)
    requires forall i :: 0 <= i < |rows| ==> rows[i].status in Statuses
    ensures Seqs.Count(rows, Attending) + Seqs.Count(rows, NotAttending) + Seqs.Count(rows, MaybeAttending) == |rows|
  {
    if rows != [] {
      var init := rows[..|rows| - 1];
      assert forall i :: 0 <= i < |init| ==> init[i] == rows[i];
      ScopeCounts(init);
      ScopesPartition(rows[|rows| - 1]);
    }
  }

  /** The answer rows for `(eventId, userId)`. */
  predicate IsFor(r: Rsvp, eventId: nat, userId: nat) {
    r.eventId == eventId && r.userId == userId
  }

  /** The position of the user's answer to the event (`find_or_initialize_by`'s lookup). */
  function Find(rows: seq<Rsvp>, eventId: nat, userId: nat): (r: Option<nat>)
    ensures r.Some? ==> r.value < |rows| && IsFor(rows[r.value], eventId, userId)
    ensures r.None? <==> forall i :: 0 <= i < |rows| ==> !IsFor(rows[i], eventId, userId)
  {
    if rows == [] then None
    else if IsFor(rows[|rows| - 1], eventId, userId) then Some(|rows| - 1)
    else Find(rows[..|rows| - 1], eventId, userId)
  }

  /** Whether the user has answered the event (the subquery of `Event.visible_to`). */
  predicate HasRsvp(rows: seq<Rsvp>, eventId: nat, userId: nat) {
    exists i :: 0 <= i < |rows| && IsFor(rows[i], eventId, userId)
  }

  /** Another row than `id` already answers for the same user and event. */
  predicate Taken(rows: seq<Rsvp>, id: Option<nat>, eventId: nat, userId: nat) {
    exists i :: 0 <= i < |rows| && IsFor(rows[i], eventId, userId) && Some(rows[i].id) != id
  }

  /** The validations: a status that is present and one of four, and no second answer. */
  function Errors(status: string, taken: bool): (errs: set<string>)
    ensures "status" in errs <==> status !in Statuses
    ensures "user_id" in errs <==> taken
    ensures errs <= {"status", "user_id"}
  {
    assert forall s | s in Statuses :: !IsBlank(s) by {
      assert !IsSpace(Statuses[0][0]) && !IsSpace(Statuses[1][0]);
      assert !IsSpace(Statuses[2][0]) && !IsSpace(Statuses[3][0]);
    }
    (if IsBlank(status) || status !in Statuses then {"status"} else {})
    + (if taken then {"user_id"} else {})
  }

  /** Ids below `nextId` and unique, statuses valid, one row per user and event. */
  ghost predicate RowsValid(rows: seq<Rsvp>, nextId: nat) {
    (forall i :: 0 <= i < |rows| ==> rows[i].id < nextId && rows[i].status in Statuses)
    && (forall i, j :: 0 <= i < j < |rows| ==>
          rows[i].id != rows[j].id && (rows[i].eventId != rows[j].eventId || rows[i].userId != rows[j].userId))
  }

  /** In a valid table a user has at most one answer per event. */
  lemma {:induction false} OneAnswerEach(rows: seq<Rsvp>, nextId: nat, eventId: nat, userId: nat)
    requires RowsValid(rows, nextId)
    ensures Seqs.Count(rows, (r: Rsvp) => IsFor(r, eventId, userId)) <= 1
  {
    if rows != [] {
      var init := rows[..|rows| - 1];
      assert forall i :: 0 <= i < |init| ==> init[i] == rows[i];
      OneAnswerEach(init, nextId, eventId, userId);
      if IsFor(rows[|rows| - 1], eventId, userId) {
        assert forall i :: 0 <= i < |init| ==> !IsFor(init[i], eventId, userId);
      }
    }
  }

  class RsvpTable {
    var rows: seq<Rsvp>
    var nextId: nat
    /** The events whose answer list was broadcast, in order. */
    var broadcasts: seq<nat>

    ghost predicate Valid()
      reads this
    {
      RowsValid(rows, nextId)
    }

    constructor ()
      ensures Valid() && rows == [] && broadcasts == []
    {
      rows := [];
      nextId := 1;
      broadcasts := [];
    }

    /**
     * `create` of the answers controller: the user's answer is looked up or started, status and
     * note are overwritten, and the save keeps it or changes nothing. A saved answer, new or
     * updated, re-broadcasts the event's list.
     */
    method Respond(eventId: nat, userId: nat, status: string, note: Option<string>)
      returns (saved: bool, rsvp: Rsvp)
      requires Valid()
      modifies this
      ensures Valid()
      ensures saved <==> status in Statuses
      ensures rsvp.eventId == eventId && rsvp.userId == userId && rsvp.status == status && rsvp.note == note
      ensures !saved ==> rows == old(rows) && nextId == old(nextId) && broadcasts == old(broadcasts)
      ensures saved ==> broadcasts == old(broadcasts) + [eventId]
      ensures saved ==> match Find(old(rows), eventId, userId)
        case Some(i) => rsvp.id == old(rows)[i].id && rows == old(rows)[i := rsvp]
        case None => rsvp.id == old(nextId) && rows == old(rows) + [rsvp]
    {
      var k := Find(rows, eventId, userId);
      var id := if k.Some? then Some(rows[k.value].id) else None;
      assert !Taken(rows, id, eventId, userId);
      if Errors(status, Taken(rows, id, eventId, userId)) != {} {
        return false, Rsvp(if k.Some? then rows[k.value].id else 0, eventId, userId, status, note);
      }
      if k.Some? {
        rsvp := rows[k.value].(status := status, note := note);
        rows := rows[k.value := rsvp];
      } else {
        rsvp := Rsvp(nextId, eventId, userId, status, note);
        Seqs.AppendPairwise(rows, rsvp, (a: Rsvp, b: Rsvp) => a.id != b.id && (a.eventId != b.eventId || a.userId != b.userId));
        rows := rows + [rsvp];
        nextId := nextId + 1;
      }
      broadcasts := broadcasts + [eventId];
      saved := true;
    }

    /** The `dependent: :destroy` of an event: its answers go, every other row stays in order. */
    method DestroyForEvent(eventId: nat)
      requires Valid()
      modifies this
      ensures Valid() && nextId == old(nextId) && broadcasts == old(broadcasts)
      ensures rows == Seqs.Filter(old(rows), (r: Rsvp) => r.eventId != eventId)
      ensures forall r :: r in rows <==> r in old(rows) && r.eventId != eventId
    {
      Seqs.FilterPairwise(rows, (r: Rsvp) => r.eventId != eventId,
        (a: Rsvp, b: Rsvp) => a.id != b.id && (a.eventId != b.eventId || a.userId != b.userId));
      var kept := Seqs.Filter(rows, (r: Rsvp) => r.eventId != eventId);
      forall i | 0 <= i < |kept| ensures kept[i].id < nextId && kept[i].status in Statuses {
        assert kept[i] in rows;
      }
      rows := kept;
    }
  }
}
