/**
 * Event reminders: how many minutes before its event a user is reminded, the reminder time
 * computed from the event's start before every validation, the `pending` and `upcoming`
 * split of what is still to be sent, and the job scheduled for the reminder time on create.
 */
module EventReminders {
  import opened Wrappers
  import Seqs

  const SecondsPerMinute: int := 60

  /** A reminder preset: its name and its minutes. */
  datatype Preset = Preset(name: string, minutes: nat)

  const Presets: seq<Preset> :=
    [Preset("15 minutes", 15), Preset("1 hour", 60), Preset("1 day", 1440), Preset("1 week", 10080)]

  /** A reminder row. `remindAt` is in seconds; a missing value is `None`. */
  datatype Reminder = Reminder(
    id: nat,
    eventId: nat,
    userId: nat,
    minutesBefore: Option<int>,
    remindAt: Option<int>,
    sent: bool)

  /**
   * `calculate_remind_at`: with the event's start and the minutes both known, the reminder
   * time is that many minutes before the start; otherwise nothing changes.
   */
  function CalculateRemindAt(r: Reminder, eventStart: Option<int>): (c: Reminder)
    ensures c.(remindAt := r.remindAt) == r
    ensures eventStart.Some? && r.minutesBefore.Some? ==>
      c.remindAt.Some? && eventStart.value - c.remindAt.value == r.minutesBefore.value * SecondsPerMinute
    ensures eventStart.None? || r.minutesBefore.None? ==> c == r
  {
    if eventStart.Some? && r.minutesBefore.Some? then
      r.(remindAt := Some(eventStart.value - r.minutesBefore.value * SecondsPerMinute))
    else r
  }

  /** The validations: positive minutes, and a reminder time. */
  function Errors(r: Reminder): (errs: set<string>)
    ensures "minutes_before" in errs <==> r.minutesBefore.None? || r.minutesBefore.value <= 0
    ensures "remind_at" in errs <==> r.remindAt.None?
    ensures errs <= {"minutes_before", "remind_at"}
  {
    (if r.minutesBefore.None? || r.minutesBefore.value <= 0 then {"minutes_before"} else {})
    + (if r.remindAt.None? then {"remind_at"} else {})
  }

  /** The reminder time is recomputed from the event on every save, so a saved reminder fires strictly before its event. */
  lemma SavedReminderPrecedesEvent(r: Reminder, eventStart: int)
    requires Errors(CalculateRemindAt(r, Some(eventStart))) == {}
    ensures var c := CalculateRemindAt(r, Some(eventStart));
      c.remindAt.value < eventStart
      && eventStart - c.remindAt.value == c.minutesBefore.value * SecondsPerMinute
  {
  }

  /** Every preset saves, and reminds its minutes ahead: a quarter hour, an hour, a day, a week. */
  lemma PresetsAhead(p: Preset, eventStart: int)
    requires p in Presets
    ensures var c := CalculateRemindAt(Reminder(0, 0, 0, Some(p.minutes), None, false), Some(eventStart));
      Errors(c) == {} && eventStart - c.remindAt.value == p.minutes * SecondsPerMinute
    ensures p.name == "1 day" ==> p.minutes * SecondsPerMinute == 86400
    ensures p.name == "1 week" ==> p.minutes * SecondsPerMinute == 7 * 86400
  {
  }

  /** The `pending` scope: not sent and due. */
  predicate Pending(r: Reminder, now: int) {
    !r.sent && r.remindAt.Some? && r.remindAt.value <= now
  }

  /** The `upcoming` scope: not sent and not yet due. */
  predicate Upcoming(r: Reminder, now: int) {
    !r.sent && r.remindAt.Some? && r.remindAt.value > now
  }

  /** Not sent, with a reminder time (every saved reminder has one). */
  predicate Unsent(r: Reminder) {
    !r.sent && r.remindAt.Some?
  }

  /** The two scopes never share a reminder, and between them they hold every unsent one. */
  lemma {:induction false} PendingUpcomingSplit(rows: seq<Reminder>, now: int)
    ensures Seqs.Count(rows, (r: Reminder) => Pending(r, now)) + Seqs.Count(rows, (r: Reminder) => Upcoming(r, now))
            == Seqs.Count(rows, Unsent)
    ensures forall r :: !(Pending(r, now) && Upcoming(r, now))
  {
    if rows != [] {
      var init := rows[..|rows| - 1];
      assert forall i :: 0 <= i < |init| ==> init[i] == rows[i];
      PendingUpcomingSplit(init, now);
    }
  }

  /** Ids unique and below `nextId`; every row passed the validations; one row per event, user and minutes (the unique index). */
  ghost predicate RowsValid(rows: seq<Reminder>, nextId: nat) {
    (forall i :: 0 <= i < |rows| ==> rows[i].id < nextId && Errors(rows[i]) == {})
    && (forall i, j :: 0 <= i < j < |rows| ==> rows[i].id != rows[j].id)
    && (forall i, j :: 0 <= i < j < |rows| ==>
          !(rows[i].eventId == rows[j].eventId && rows[i].userId == rows[j].userId
            && rows[i].minutesBefore == rows[j].minutesBefore))
  }

  /** Another reminder for the same event, user and minutes. */
  predicate Duplicate(rows: seq<Reminder>, eventId: nat, userId: nat, minutes: Option<int>) {
    exists i :: 0 <= i < |rows| && rows[i].eventId == eventId && rows[i].userId == userId && rows[i].minutesBefore == minutes
  }

  /** The position of the reminder with this id (`find_by(id:)`). */
  function IndexOf(rows: seq<Reminder>, id: nat): (r: Option<nat>)
    ensures r.Some? ==> r.value < |rows| && rows[r.value].id == id
    ensures r.None? <==> forall i :: 0 <= i < |rows| ==> rows[i].id != id
  {
    if rows == [] then None
    else if rows[|rows| - 1].id == id then Some(|rows| - 1)
    else IndexOf(rows[..|rows| - 1], id)
  }

  /** A job run scheduled for a reminder. */
  datatype Job = Job(reminderId: nat, runAt: int)

  class ReminderTable {
    var rows: seq<Reminder>
    var nextId: nat
    /** The reminder jobs enqueued, in order. */
    var jobs: seq<Job>

    ghost predicate Valid()
      reads this
    {
      RowsValid(rows, nextId)
    }

    constructor ()
      ensures Valid() && rows == [] && jobs == []
    {
      rows := [];
      nextId := 1;
      jobs := [];
    }

    /**
     * `create` for a user and an event that starts at `eventStart`: the reminder time is
     * computed, the validations run, and a saved reminder gets a job at its reminder time.
     * A second reminder with the same event, user and minutes is refused by the unique index.
     */
    method Create(eventId: nat, userId: nat, minutes: Option<int>, eventStart: Option<int>)
      returns (r: Result<Reminder, set<string>>)
      requires Valid()
      modifies this
      ensures Valid()
      ensures var c := CalculateRemindAt(Reminder(old(nextId), eventId, userId, minutes, None, false), eventStart);
        if Errors(c) != {} then
          r == Err(Errors(c)) && rows == old(rows) && nextId == old(nextId) && jobs == old(jobs)
        else if Duplicate(old(rows), eventId, userId, minutes) then
          r == Err({"idx_reminders_unique"}) && rows == old(rows) && nextId == old(nextId) && jobs == old(jobs)
        else
          r == Ok(c) && rows == old(rows) + [c] && nextId == old(nextId) + 1
          && jobs == old(jobs) + [Job(c.id, c.remindAt.value)]
    {
      var c := CalculateRemindAt(Reminder(nextId, eventId, userId, minutes, None, false), eventStart);
      var errs := Errors(c);
      if errs != {} {
        return Err(errs);
      }
      if Duplicate(rows, eventId, userId, minutes) {
        return Err({"idx_reminders_unique"});
      }
      rows := rows + [c];
      nextId := nextId + 1;
      jobs := jobs + [Job(c.id, c.remindAt.value)];
      return Ok(c);
    }

    /** `update!(sent: true)` on the reminder at `k`. */
    method MarkSent(k: nat)
      requires Valid() && k < |rows|
      modifies this
      ensures Valid() && nextId == old(nextId) && jobs == old(jobs)
      ensures rows == old(rows)[k := old(rows)[k].(sent := true)]
    {
      rows := rows[k := rows[k].(sent := true)];
    }

    /** The `dependent: :destroy` of an event: its reminders go, every other row stays in order. */
    method DestroyForEvent(eventId: nat)
      requires Valid()
      modifies this
      ensures Valid() && nextId == old(nextId) && jobs == old(jobs)
      ensures rows == Seqs.Filter(old(rows), (r: Reminder) => r.eventId != eventId)
      ensures forall r :: r in rows <==> r in old(rows) && r.eventId != eventId
    {
      var keep := (r: Reminder) => r.eventId != eventId;
      Seqs.FilterPairwise(rows, keep, (a: Reminder, b: Reminder) => a.id != b.id);
      Seqs.FilterPairwise(rows, keep, (a: Reminder, b: Reminder) =>
        !(a.eventId == b.eventId && a.userId == b.userId && a.minutesBefore == b.minutesBefore));
      var kept := Seqs.Filter(rows, keep);
      forall i | 0 <= i < |kept| ensures kept[i].id < nextId && Errors(kept[i]) == {} {
        assert kept[i] in rows;
      }
      rows := kept;
    }
  }
}
