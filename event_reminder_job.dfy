/**
 * The job that delivers a reminder: a reminder that is gone, already sent, or whose event is
 * gone is skipped; otherwise the user gets a reminder notification from the event's creator
 * about the event, and then the reminder is marked sent, so a second run does nothing.
 */
module EventReminderJob {
  import opened Wrappers
  import Events
  import EventReminders
  import Notifications

  /** How a run ends: skipped, a notification delivered, or an exception from `create!`. */
  datatype Outcome = Skipped | Delivered(notificationId: nat) | Raised(errors: set<string>)

  /** The reminder the job would deliver now: present and unsent, with its event present. */
  function Due(rows: seq<EventReminders.Reminder>, events: seq<Events.Event>, reminderId: nat)
    : (r: Option<(nat, nat)>)
    ensures r.Some? ==>
      r.value.0 < |rows| && rows[r.value.0].id == reminderId && !rows[r.value.0].sent
      && r.value.1 < |events| && events[r.value.1].id == rows[r.value.0].eventId
    ensures r.None? <==>
      EventReminders.IndexOf(rows, reminderId).None?
      || rows[EventReminders.IndexOf(rows, reminderId).value].sent
      || Events.IndexOf(events, rows[EventReminders.IndexOf(rows, reminderId).value].eventId).None?
  {
    match EventReminders.IndexOf(rows, reminderId)
    case None => None
    case Some(k) =>
      if rows[k].sent then None
      else match Events.IndexOf(events, rows[k].eventId)
        case None => None
        case Some(j) => Some((k, j))
  }

  /**
   * `perform` as written: the notification is created with the type "event_reminder", which
   * the notification type validation as written refuses, so `create!` raises before the
   * reminder is marked sent. Nothing changes, and no reminder is ever delivered.
   */
  method PerformAsWritten(reminders: EventReminders.ReminderTable, events: seq<Events.Event>, reminderId: nat)
    returns (outcome: Outcome)
    ensures Due(reminders.rows, events, reminderId).None? ==> outcome == Skipped
    ensures Due(reminders.rows, events, reminderId).Some? ==> outcome == Raised({"notification_type"})
    ensures !outcome.Delivered?
  {
    var due := Due(reminders.rows, events, reminderId);
    if due.None? {
      return Skipped;
    }
    // `create!` validates the type first; as written the validation always refuses it.
    Notifications.ReminderTypeRejectedAsWritten(Notifications.EventReminder);
    return Raised(Notifications.TypeErrorsAsWritten(Notifications.EventReminder));
  }

  /**
   * `perform` with the reminder type accepted: a due reminder yields one unread notification
   * for its user, from the event's creator, about the event, and is then marked sent.
   */
  method Perform(reminders: EventReminders.ReminderTable, events: seq<Events.Event>,
                 notifications: Notifications.NotificationTable, reminderId: nat, now: int)
    returns (outcome: Outcome)
    requires reminders.Valid() && notifications.Valid()
    modifies reminders, notifications
    ensures reminders.Valid() && notifications.Valid()
    ensures reminders.jobs == old(reminders.jobs) && reminders.nextId == old(reminders.nextId)
    ensures match Due(old(reminders.rows), events, reminderId)
      case None =>
        outcome == Skipped && reminders.rows == old(reminders.rows)
        && notifications.rows == old(notifications.rows) && notifications.nextId == old(notifications.nextId)
      case Some((k, j)) =>
        var r := old(reminders.rows)[k];
        outcome == Delivered(old(notifications.nextId))
        && notifications.rows == old(notifications.rows) + [Notifications.Notification(
             old(notifications.nextId), r.userId, events[j].createdById, r.eventId,
             Notifications.EventReminder, None, now)]
        && reminders.rows == old(reminders.rows)[k := r.(sent := true)]
  {
    var due := Due(reminders.rows, events, reminderId);
    if due.None? {
      return Skipped;
    }
    var (k, j) := due.value;
    var r := reminders.rows[k];
    var n, _ := notifications.Create(r.userId, events[j].createdById, r.eventId, Notifications.EventReminder, now);
    if n.None? {
      assert false;
      return Raised({"notification_type"});
    }
    reminders.MarkSent(k);
    return Delivered(n.value.id);
  }

  /** A reminder is delivered at most once: a second run after a delivery is skipped and adds nothing. */
  method PerformTwice(reminders: EventReminders.ReminderTable, events: seq<Events.Event>,
                      notifications: Notifications.NotificationTable, reminderId: nat, now: int, later: int)
    returns (first: Outcome, second: Outcome)
    requires reminders.Valid() && notifications.Valid()
    modifies reminders, notifications
    ensures second == Skipped
    ensures |notifications.rows| == |old(notifications.rows)| + (if first.Delivered? then 1 else 0)
  {
    first := Perform(reminders, events, notifications, reminderId, now);
    second := Perform(reminders, events, notifications, reminderId, later);
  }
}
