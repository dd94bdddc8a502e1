/**
 * The calendar actions: the range a view covers, the events listed for it with recurring
 * events expanded into their occurrences and everything sorted by start, the creator-or-admin
 * rule in front of edits, and creation with its optional default reminder.
 */
module EventsController {
  import opened Wrappers
  import Seqs
  import Sorting
  import Users
  import Calendar
  import Events
  import EventOccurrences
  import EventRsvps
  import EventReminders
  import opened Web

  type Item = EventOccurrences.Item

  /** The minutes of the reminder added on create when the request names none. */
  const DefaultReminderMinutes: int := 60

  /** What one event contributes to the listing: its occurrences when it recurs, else itself. */
  function Piece(e: Events.Event, occurs: Events.Event -> seq<int>): (r: seq<Item>)
    ensures r == EventOccurrences.OccurrencesBetween(e, occurs(e))
  {
    if Events.IsRecurring(e) then EventOccurrences.OccurrencesBetween(e, occurs(e))
    else [EventOccurrences.Single(e)]
  }

  /** The listing before sorting: every event's contribution, in the order of the events. */
  function Expanded(events: seq<Events.Event>, occurs: Events.Event -> seq<int>): seq<Item> {
    if events == [] then []
    else Expanded(events[..|events| - 1], occurs) + Piece(events[|events| - 1], occurs)
  }

  /** A non-recurring event is listed as itself as often as it is given, and a recurring one never is. */
  lemma {:induction false} ExpandedSingles(events: seq<Events.Event>, occurs: Events.Event -> seq<int>, e: Events.Event)
    ensures multiset(Expanded(events, occurs))[EventOccurrences.Single(e)]
            == if Events.IsRecurring(e) then 0 else multiset(events)[e]
  {
    if events != [] {
      var init := events[..|events| - 1];
      var last := events[|events| - 1];
      ExpandedSingles(init, occurs, e);
      assert events == init + [last];
      assert multiset(events) == multiset(init) + multiset{last};
      PieceSingles(last, occurs, e);
      assert multiset(Expanded(events, occurs)) == multiset(Expanded(init, occurs)) + multiset(Piece(last, occurs));
    }
  }

  /** One event's piece lists `e` itself once when it is `e` and does not recur, and never otherwise. */
  lemma PieceSingles(last: Events.Event, occurs: Events.Event -> seq<int>, e: Events.Event)
    ensures multiset(Piece(last, occurs))[EventOccurrences.Single(e)]
            == if Events.IsRecurring(e) || last != e then 0 else 1
  {
    var p := Piece(last, occurs);
    if Events.IsRecurring(last) {
      assert EventOccurrences.Single(e) !in p;
    } else {
      assert p == [EventOccurrences.Single(last)];
    }
  }

  /** The listing holds exactly the non-recurring events and every scheduled occurrence of the recurring ones. */
  lemma {:induction false} ExpandedMembers(events: seq<Events.Event>, occurs: Events.Event -> seq<int>, x: Item)
    ensures x in Expanded(events, occurs) <==>
      (x.Single? && x.event in events && !Events.IsRecurring(x.event))
      || (x.Repeat? && x.occurrence.event in events && Events.IsRecurring(x.occurrence.event)
          && x.occurrence.startAt in occurs(x.occurrence.event))
  {
    if events != [] {
      var init := events[..|events| - 1];
      var last := events[|events| - 1];
      ExpandedMembers(init, occurs, x);
      assert events == init + [last];
      var p := Piece(last, occurs);
      if x.Repeat? && x.occurrence.event == last && Events.IsRecurring(last) {
        var ts := occurs(last);
        if x.occurrence.startAt in ts {
          var i :| 0 <= i < |ts| && ts[i] == x.occurrence.startAt;
          assert p[i] == x;
        } else {
          assert x !in p;
        }
      }
    }
  }

  /** The sort key: `start_at`. */
  function Start(x: Item): int {
    x.Start()
  }

  /**
   * `expand_recurring_events`: events are walked in order, recurring ones contributing their
   * occurrences and the others themselves, and the result is sorted by start.
   */
  method ExpandRecurring(events: seq<Events.Event>, occurs: Events.Event -> seq<int>) returns (r: seq<Item>)
    ensures Sorting.SortedBy(r, Start)
    ensures multiset(r) == multiset(Expanded(events, occurs))
  {
    var expanded: seq<Item> := [];
    var i := 0;
    while i < |events|
      invariant 0 <= i <= |events|
      invariant expanded == Expanded(events[..i], occurs)
    {
      var e := events[i];
      assert events[..i + 1][..i] == events[..i];
      if Events.IsRecurring(e) {
        expanded := expanded + EventOccurrences.OccurrencesBetween(e, occurs(e));
      } else {
        expanded := expanded + [EventOccurrences.Single(e)];
      }
      i := i + 1;
    }
    assert events[..i] == events;
    r := Sorting.SortBy(expanded, Start);
  }

  /** `visible_to(...).between(...)` as written: recurring events too are selected by their first start. */
  function SelectedAsWritten(events: seq<Events.Event>, userId: nat, rsvps: seq<EventRsvps.Rsvp>, range: Calendar.DayRange)
    : (r: seq<Events.Event>)
    ensures forall e :: e in r <==>
      e in events && Events.IsVisibleTo(e, userId, rsvps) && Events.StartsWithin(e, range.first, range.last)
  {
    Events.Between(Events.VisibleTo(events, userId, rsvps), range.first, range.last)
  }

  /**
   * A weekly event that began the week before is not listed in this week's view although its
   * schedule has an occurrence in it: the `between` scope drops it before expansion.
   */
  lemma RecurringSeriesMissedAsWritten()
    ensures var e := Events.Event(1, "Standup", "", Some(0), None, false, "#3b82f6", Events.Public, 1, Some("weekly"));
      var range := Calendar.DayRange(7, 13);
      var t := 7 * Calendar.SecondsPerDay + 3600;
      var occurs := (ev: Events.Event) => [t];
      Events.IsVisibleTo(e, 2, []) && Events.IsRecurring(e) && Calendar.DayStart(7) <= t <= Calendar.DayEnd(13)
      && EventOccurrences.Repeat(EventOccurrences.Occurrence(e, t)) !in Expanded(SelectedAsWritten([e], 2, [], range), occurs)
  {
    var e := Events.Event(1, "Standup", "", Some(0), None, false, "#3b82f6", Events.Public, 1, Some("weekly"));
    var range := Calendar.DayRange(7, 13);
    var t := 7 * Calendar.SecondsPerDay + 3600;
    var occurs := (ev: Events.Event) => [t];
    assert "weekly"[0] == 'w';
    assert SelectedAsWritten([e], 2, [], range) == [];
    assert Expanded([], occurs) == [];
  }

  /** The selection the listing is meant to have: visible events starting in the range, and every visible recurring event. */
  function Selected(events: seq<Events.Event>, userId: nat, rsvps: seq<EventRsvps.Rsvp>, range: Calendar.DayRange)
    : (r: seq<Events.Event>)
    ensures forall e :: e in r <==>
      e in events && Events.IsVisibleTo(e, userId, rsvps)
      && (Events.StartsWithin(e, range.first, range.last) || Events.IsRecurring(e))
  {
    Seqs.Filter(Events.VisibleTo(events, userId, rsvps),
      (e: Events.Event) => Events.StartsWithin(e, range.first, range.last) || Events.IsRecurring(e))
  }

  /**
   * With that selection, every occurrence the schedule has in the window is listed, whenever its
   * series began, and a non-recurring event is listed exactly when it is visible and starts in range.
   */
  lemma RecurringOccurrencesListed(events: seq<Events.Event>, userId: nat, rsvps: seq<EventRsvps.Rsvp>,
                                   range: Calendar.DayRange, occurs: Events.Event -> seq<int>, x: Item)
    ensures x.Repeat? ==>
      (x in Expanded(Selected(events, userId, rsvps, range), occurs) <==>
        x.occurrence.event in events && Events.IsVisibleTo(x.occurrence.event, userId, rsvps)
        && Events.IsRecurring(x.occurrence.event) && x.occurrence.startAt in occurs(x.occurrence.event))
    ensures x.Single? ==>
      (x in Expanded(Selected(events, userId, rsvps, range), occurs) <==>
        x.event in events && Events.IsVisibleTo(x.event, userId, rsvps) && !Events.IsRecurring(x.event)
        && Events.StartsWithin(x.event, range.first, range.last))
  {
    ExpandedMembers(Selected(events, userId, rsvps, range), occurs, x);
  }

  /**
   * `index`: the date defaults to today and the view to month; the listing is the visible
   * events whose first start lies in the view's range, expanded and sorted by start.
   */
  method Index(events: seq<Events.Event>, rsvps: seq<EventRsvps.Rsvp>, userId: nat, date: Option<Calendar.Date>,
               today: Calendar.Date, view: Option<string>, occurs: Events.Event -> seq<int>)
    returns (range: Calendar.DayRange, items: seq<Item>)
    requires Calendar.ValidDate(date.GetOr(today))
    ensures range == Calendar.ViewRange(view.GetOr("month"), date.GetOr(today))
    ensures Sorting.SortedBy(items, Start)
    ensures multiset(items) == multiset(Expanded(SelectedAsWritten(events, userId, rsvps, range), occurs))
  {
    range := Calendar.ViewRange(view.GetOr("month"), date.GetOr(today));
    var selected := SelectedAsWritten(events, userId, rsvps, range);
    items := ExpandRecurring(selected, occurs);
  }

  const NotAuthorized: Response := Redirect(EventsIndex, Alert("Not authorized."))

  /** `authorize_event`: the creator or an admin passes; anyone else is sent to the calendar. */
  function Authorize(e: Events.Event, user: Users.User): (r: Option<Response>)
    ensures r.None? <==> e.createdById == user.id || user.IsAdmin()
    ensures r.Some? ==> r.value == NotAuthorized
  {
    if e.createdById == user.id || user.IsAdmin() then None else Some(NotAuthorized)
  }

  /** Every reminder and answer refers to an event id already handed out. */
  ghost predicate Linked(table: Events.EventTable, reminders: EventReminders.ReminderTable, rsvps: EventRsvps.RsvpTable)
    reads table, reminders, rsvps
  {
    (forall i :: 0 <= i < |reminders.rows| ==> reminders.rows[i].eventId < table.nextId)
    && (forall i :: 0 <= i < |rsvps.rows| ==> rsvps.rows[i].eventId < table.nextId)
  }

  /**
   * `create`: the event is built for the current user; when it saves and a reminder was asked
   * for, the user gets one at the requested minutes, or 60, before the start. The reminder's
   * own failure is silent.
   */
  method Create(table: Events.EventTable, reminders: EventReminders.ReminderTable, rsvps: EventRsvps.RsvpTable,
                currentUserId: nat, attrs: Events.Event, addReminder: bool, reminderMinutes: Option<int>, turbo: bool)
    returns (resp: Response)
    requires table.Valid() && reminders.Valid() && Linked(table, reminders, rsvps)
    modifies table, reminders
    ensures table.Valid() && reminders.Valid() && Linked(table, reminders, rsvps)
    ensures var e := attrs.(createdById := currentUserId);
      Events.Errors(e) != {} ==>
        resp == Status(Unprocessable) && table.rows == old(table.rows) && reminders.rows == old(reminders.rows)
    ensures var e := attrs.(createdById := currentUserId);
      var m := reminderMinutes.GetOr(DefaultReminderMinutes);
      Events.Errors(e) == {} ==>
        resp == (if turbo then Status(Success) else Redirect(EventsIndex, Notice("Event created.")))
        && table.rows == old(table.rows) + [e.(id := old(table.nextId))]
        && (addReminder && m > 0 ==>
              reminders.rows == old(reminders.rows) + [EventReminders.Reminder(
                old(reminders.nextId), old(table.nextId), currentUserId, Some(m),
                Some(e.startAt.value - m * EventReminders.SecondsPerMinute), false)])
        && (!addReminder || m <= 0 ==> reminders.rows == old(reminders.rows))
  {
    var e := attrs.(createdById := currentUserId);
    var created := table.Create(e);
    if created.Err? {
      return Status(Unprocessable);
    }
    if addReminder {
      var m := reminderMinutes.GetOr(DefaultReminderMinutes);
      assert !EventReminders.Duplicate(reminders.rows, created.value.id, currentUserId, Some(m));
      var _ := reminders.Create(created.value.id, currentUserId, Some(m), created.value.startAt);
    }
    return if turbo then Status(Success) else Redirect(EventsIndex, Notice("Event created."));
  }

  /** `update`: a missing event is a 404, a stranger is turned away, otherwise the attributes are saved or refused. */
  method Update(table: Events.EventTable, reminders: EventReminders.ReminderTable, rsvps: EventRsvps.RsvpTable,
                user: Users.User, id: nat, attrs: Events.Event, turbo: bool)
    returns (resp: Response)
    requires table.Valid() && Linked(table, reminders, rsvps)
    modifies table
    ensures table.Valid() && Linked(table, reminders, rsvps) && table.nextId == old(table.nextId)
    ensures match Events.IndexOf(old(table.rows), id)
      case None => resp == Status(NotFound) && table.rows == old(table.rows)
      case Some(k) =>
        var stored := old(table.rows)[k];
        var e := attrs.(id := stored.id, createdById := stored.createdById);
        if Authorize(stored, user).Some? then resp == NotAuthorized && table.rows == old(table.rows)
        else if Events.Errors(e) != {} then resp == Status(Unprocessable) && table.rows == old(table.rows)
        else
          resp == (if turbo then Status(Success) else Redirect(EventsIndex, Notice("Event updated.")))
          && table.rows == old(table.rows)[k := e]
  {
    var found := Events.IndexOf(table.rows, id);
    if found.None? {
      return Status(NotFound);
    }
    var denied := Authorize(table.rows[found.value], user);
    if denied.Some? {
      return denied.value;
    }
    var updated := table.Update(found.value, attrs);
    if updated.Err? {
      return Status(Unprocessable);
    }
    return if turbo then Status(Success) else Redirect(EventsIndex, Notice("Event updated."));
  }

  /**
   * `destroy`: a missing event is a 404, a stranger is turned away; otherwise the event goes
   * together with its answers and reminders.
   */
  method Destroy(table: Events.EventTable, reminders: EventReminders.ReminderTable, rsvps: EventRsvps.RsvpTable,
                 user: Users.User, id: nat, turbo: bool)
    returns (resp: Response)
    requires table.Valid() && reminders.Valid() && rsvps.Valid() && Linked(table, reminders, rsvps)
    modifies table, reminders, rsvps
    ensures table.Valid() && reminders.Valid() && rsvps.Valid() && Linked(table, reminders, rsvps)
    ensures match Events.IndexOf(old(table.rows), id)
      case None =>
        resp == Status(NotFound) && table.rows == old(table.rows)
        && reminders.rows == old(reminders.rows) && rsvps.rows == old(rsvps.rows)
      case Some(k) =>
        if Authorize(old(table.rows)[k], user).Some? then
          resp == NotAuthorized && table.rows == old(table.rows)
          && reminders.rows == old(reminders.rows) && rsvps.rows == old(rsvps.rows)
        else
          resp == (if turbo then Status(Success) else Redirect(EventsIndex, Notice("Event deleted.")))
          && table.rows == old(table.rows)[..k] + old(table.rows)[k + 1..]
          && (forall r :: r in reminders.rows <==> r in old(reminders.rows) && r.eventId != id)
          && (forall a :: a in rsvps.rows <==> a in old(rsvps.rows) && a.eventId != id)
  {
    var found := Events.IndexOf(table.rows, id);
    if found.None? {
      return Status(NotFound);
    }
    var denied := Authorize(table.rows[found.value], user);
    if denied.Some? {
      return denied.value;
    }
    table.Destroy(found.value);
    rsvps.DestroyForEvent(id);
    reminders.DestroyForEvent(id);
    forall i | 0 <= i < |reminders.rows| ensures reminders.rows[i].eventId < table.nextId {
      assert reminders.rows[i] in old(reminders.rows);
    }
    forall i | 0 <= i < |rsvps.rows| ensures rsvps.rows[i].eventId < table.nextId {
      assert rsvps.rows[i] in old(rsvps.rows);
    }
    return if turbo then Status(Success) else Redirect(EventsIndex, Notice("Event deleted."));
  }
}
