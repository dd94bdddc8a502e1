/**
 * Calendar events: the validations every save runs, who may see an event, the `between`
 * window a calendar view selects, and whether an event recurs. The recurrence rule is kept
 * as its serialized text; the schedule it describes is not part of this model.
 */
module Events {
  import opened Wrappers
  import opened Text
  import Seqs
  import Calendar
  import Themes
  import EventRsvps

  const MaxTitleLength: nat := 255
  const Public: string := "public"
  const Private: string := "private"
  const Visibilities: seq<string> := [Public, Private]

  /** An event row. Times are seconds; a missing time is `None`. */
  datatype Event = Event(
    id: nat,
    title: string,
    description: string,
    startAt: Option<int>,
    endAt: Option<int>,
    allDay: bool,
    color: string,
    visibility: string,
    createdById: nat,
    recurrenceRule: Option<string>)

  /** `end_after_start`: both times are there and the end is not after the start. */
  predicate EndsTooEarly(e: Event) {
    e.startAt.Some? && e.endAt.Some? && e.endAt.value <= e.startAt.value
  }

  /** The validations: title present and short enough, a start, a hex colour, a known visibility, an end after the start. */
  function Errors(e: Event): (errs: set<string>)
    ensures "title" in errs <==> IsBlank(e.title) || |e.title| > MaxTitleLength
    ensures "start_at" in errs <==> e.startAt.None?
    ensures "color" in errs <==> !Themes.IsHexColor(e.color)
    ensures "visibility" in errs <==> e.visibility !in Visibilities
    ensures "end_at" in errs <==> EndsTooEarly(e)
    ensures errs <= {"title", "start_at", "color", "visibility", "end_at"}
  {
    (if IsBlank(e.title) || |e.title| > MaxTitleLength then {"title"} else {})
    + (if e.startAt.None? then {"start_at"} else {})
    + (if !Themes.IsHexColor(e.color) then {"color"} else {})
    + (if e.visibility !in Visibilities then {"visibility"} else {})
    + (if EndsTooEarly(e) then {"end_at"} else {})
  }

  /** A saved event starts, and when it ends, it ends strictly after it starts. */
  lemma SavedEventTimes(e: Event)
    requires Errors(e) == {}
    ensures e.startAt.Some?
    ensures e.endAt.Some? ==> e.endAt.value > e.startAt.value
    ensures e.visibility == Public || e.visibility == Private
  {
  }

  /** `visible_to`: public, or created by the user, or answered by the user. */
  predicate IsVisibleTo(e: Event, userId: nat, rsvps: seq<EventRsvps.Rsvp>) {
    e.visibility == Public || e.createdById == userId || EventRsvps.HasRsvp(rsvps, e.id, userId)
  }

  /** The `visible_to` scope over a list of events. */
  function VisibleTo(events: seq<Event>, userId: nat, rsvps: seq<EventRsvps.Rsvp>): (r: seq<Event>)
    ensures forall e :: e in r <==> e in events && IsVisibleTo(e, userId, rsvps)
  {
    Seqs.Filter(events, (e: Event) => IsVisibleTo(e, userId, rsvps))
  }

  /** A private event nobody invited the user to and that the user did not create stays hidden. */
  lemma PrivateEventsHidden(events: seq<Event>, userId: nat, rsvps: seq<EventRsvps.Rsvp>, e: Event)
    requires e.visibility == Private && e.createdById != userId
    requires forall i :: 0 <= i < |rsvps| ==> rsvps[i].eventId != e.id || rsvps[i].userId != userId
    ensures e !in VisibleTo(events, userId, rsvps)
  {
  }

  /** The start lies between the first second of day `first` and the last second of day `last`. */
  predicate StartsWithin(e: Event, first: int, last: int) {
    e.startAt.Some? && Calendar.DayStart(first) <= e.startAt.value <= Calendar.DayEnd(last)
  }

  /** The `between` scope: events starting on one of the days `first` to `last`; an event without a start is never selected. */
  function Between(events: seq<Event>, first: int, last: int): (r: seq<Event>)
    ensures forall e :: e in r ==> e.startAt.Some? && first <= e.startAt.value / Calendar.SecondsPerDay <= last
    ensures forall e :: e in r <==> e in events && StartsWithin(e, first, last)
  {
    var r := Seqs.Filter(events, (e: Event) => StartsWithin(e, first, last));
    forall e | e in r
      ensures first <= e.startAt.value / Calendar.SecondsPerDay <= last
    {
      Calendar.DaysTile(e.startAt.value, first, last);
    }
    r
  }

  /** `recurring?`: a rule is stored and is not blank. */
  predicate IsRecurring(e: Event) {
    e.recurrenceRule.Some? && !IsBlank(e.recurrenceRule.value)
  }

  /** Ids are unique and below `nextId`, and every stored event passed the validations. */
  ghost predicate RowsValid(rows: seq<Event>, nextId: nat) {
    (forall i :: 0 <= i < |rows| ==> rows[i].id < nextId && Errors(rows[i]) == {})
    && (forall i, j :: 0 <= i < j < |rows| ==> rows[i].id != rows[j].id)
  }

  /** The position of the event with this id (`Event.find`). */
  function IndexOf(rows: seq<Event>, id: nat): (r: Option<nat>)
    ensures r.Some? ==> r.value < |rows| && rows[r.value].id == id
    ensures r.None? <==> forall i :: 0 <= i < |rows| ==> rows[i].id != id
  {
    if rows == [] then None
    else if rows[|rows| - 1].id == id then Some(|rows| - 1)
    else IndexOf(rows[..|rows| - 1], id)
  }

  /** The events table. */
  class EventTable {
    var rows: seq<Event>
    var nextId: nat

    ghost predicate Valid()
      reads this
    {
      RowsValid(rows, nextId)
    }

    constructor ()
      ensures Valid() && rows == []
    {
      rows := [];
      nextId := 1;
    }

    /** `save` of a new event: stored under a fresh id when it validates, else nothing changes and the errors come back. */
    method Create(e: Event) returns (r: Result<Event, set<string>>)
      requires Valid()
      modifies this
      ensures Valid()
      ensures Errors(e) != {} ==> r == Err(Errors(e)) && rows == old(rows) && nextId == old(nextId)
      ensures Errors(e) == {} ==>
        r == Ok(e.(id := old(nextId))) && rows == old(rows) + [r.value] && nextId == old(nextId) + 1
    {
      var errs := Errors(e);
      if errs != {} {
        return Err(errs);
      }
      var saved := e.(id := nextId);
      rows := rows + [saved];
      nextId := nextId + 1;
      return Ok(saved);
    }

    /** `update`: the stored event takes the new attributes when they validate; its id and creator stay. */
    method Update(k: nat, attrs: Event) returns (r: Result<Event, set<string>>)
      requires Valid() && k < |rows|
      modifies this
      ensures Valid() && nextId == old(nextId)
      ensures var e := attrs.(id := old(rows)[k].id, createdById := old(rows)[k].createdById);
        (Errors(e) != {} ==> r == Err(Errors(e)) && rows == old(rows))
        && (Errors(e) == {} ==> r == Ok(e) && rows == old(rows)[k := e])
    {
      var e := attrs.(id := rows[k].id, createdById := rows[k].createdById);
      var errs := Errors(e);
      if errs != {} {
        return Err(errs);
      }
      rows := rows[k := e];
      return Ok(e);
    }

    /** `destroy`: the event is removed and every other row is kept in order. */
    method Destroy(k: nat)
      requires Valid() && k < |rows|
      modifies this
      ensures Valid() && nextId == old(nextId)
      ensures rows == old(rows)[..k] + old(rows)[k + 1..]
    {
      Seqs.RemoveAtPairwise(rows, k, (a: Event, b: Event) => a.id != b.id);
      rows := rows[..k] + rows[k + 1..];
    }
  }
}
