/**
 * What a calendar view lists: an event itself, or one occurrence of a recurring event at a
 * time its schedule produced. An occurrence borrows everything but its start from its event
 * and keeps the event's duration. The schedule's times come from outside the model.
 */
module EventOccurrences {
  import opened Wrappers
  import Events

  /** `EventOccurrence`: the event and the start of this occurrence. */
  datatype Occurrence = Occurrence(event: Events.Event, startAt: int) {
    /** Delegated to the event, so every occurrence of an event has the event's id. */
    function Id(): nat { event.id }
    function Title(): string { event.title }
    function Visibility(): string { event.visibility }
    function CreatedById(): nat { event.createdById }
    predicate IsRecurring() { true }
    predicate IsOccurrence() { true }
  }

  /**
   * `end_at`: none when the event has no end, otherwise the occurrence's start moved on by the
   * event's duration. Occurrences come from saved events, which always have a start.
   */
  function EndAt(o: Occurrence): (r: Option<int>)
    requires o.event.startAt.Some?
    ensures r.None? <==> o.event.endAt.None?
    ensures r.Some? ==> r.value - o.startAt == o.event.endAt.value - o.event.startAt.value
  {
    match o.event.endAt
    case None => None
    case Some(end) => Some(o.startAt + (end - o.event.startAt.value))
  }

  /** An occurrence of a saved event that has an end also ends strictly after it starts. */
  lemma OccurrenceEndsAfterStart(o: Occurrence)
    requires Events.Errors(o.event) == {}
    ensures o.event.startAt.Some?
    ensures o.event.endAt.Some? ==> EndAt(o).Some? && EndAt(o).value > o.startAt
  {
    Events.SavedEventTimes(o.event);
  }

  /** Occurrences are always recurring and always occurrences, and share their event's id. */
  lemma OccurrenceFacts(o: Occurrence, p: Occurrence)
    requires o.event == p.event
    ensures o.IsRecurring() && o.IsOccurrence()
    ensures o.Id() == p.Id() && o.Title() == p.Title()
  {
  }

  /** An entry of a calendar view. */
  datatype Item = Single(event: Events.Event) | Repeat(occurrence: Occurrence) {
    /** The entry's event. */
    function Source(): Events.Event {
      if Single? then event else occurrence.event
    }

    /** `start_at`, as the calendar sorts by it; listed events always have a start. */
    function Start(): int {
      if Single? then event.startAt.GetOr(0) else occurrence.startAt
    }
  }

  /**
   * `occurrences_between`: a non-recurring event stands for itself alone; a recurring one
   * becomes one occurrence per time its schedule produced for the window, in that order.
   */
  function OccurrencesBetween(e: Events.Event, times: seq<int>): (r: seq<Item>)
    ensures !Events.IsRecurring(e) ==> r == [Single(e)]
    ensures Events.IsRecurring(e) ==> |r| == |times|
    ensures Events.IsRecurring(e) ==>
      forall i :: 0 <= i < |r| ==> r[i].Repeat? && r[i].occurrence.event == e && r[i].Start() == times[i]
    ensures forall x :: x in r ==> x.Source() == e
  {
    if !Events.IsRecurring(e) then [Single(e)]
    else seq(|times|, i requires 0 <= i < |times| => Repeat(Occurrence(e, times[i])))
  }
}
