/**
 * Notifications: a recipient, the user whose action caused it, the record it is about and a
 * type; read state that only moves from unread to read; marking one or all read, with the
 * events pushed to the recipient's notification stream.
 */
module Notifications {
  import opened Wrappers
  import opened Text
  import Seqs

  const ThreadReply: string := "thread_reply"
  const Mention: string := "mention"
  const EventReminder: string := "event_reminder"

  /** `TYPES` as the source lists it. */
  const TypesAsWritten: seq<string> := [ThreadReply, Mention]

  /** The accepted types: the source's two, and the type the event reminder job creates with. */
  const Types: seq<string> := [ThreadReply, Mention, EventReminder]

  /**
   * A notification row. `messageId` is the notifiable's id: the message for replies and
   * mentions, the event for reminders.
   */
  datatype Notification = Notification(
    id: nat,
    userId: nat,
    actorId: nat,
    messageId: nat,
    notificationType: string,
    readAt: Option<int>,
    createdAt: int)
  {
    predicate IsRead() { readAt.Some? }
    predicate IsUnread() { !IsRead() }
  }

  /** What is pushed on the recipient's notification stream. */
  datatype Event =
    | NewNotification(recipient: nat, id: nat, notificationType: string, messageId: nat, unreadCount: nat)
    | NotificationRead(recipient: nat, id: nat, unreadCount: nat)
    | NotificationsRead(recipient: nat, ids: seq<nat>)

  /** The type validation as written: present and one of the two listed types. */
  function TypeErrorsAsWritten(t: string): (errs: set<string>)
    ensures errs == {} <==> t in TypesAsWritten
    ensures errs <= {"notification_type"}
  {
    assert !IsSpace(ThreadReply[0]) && !IsSpace(Mention[0]);
    if IsBlank(t) || t !in TypesAsWritten then {"notification_type"} else {}
  }

  /** The type validation: present and one of the accepted types. */
  function TypeErrors(t: string): (errs: set<string>)
    ensures errs == {} <==> t in Types
    ensures errs <= {"notification_type"}
  {
    assert !IsSpace(ThreadReply[0]) && !IsSpace(Mention[0]) && !IsSpace(EventReminder[0]);
    if IsBlank(t) || t !in Types then {"notification_type"} else {}
  }

  /** The reminder job's type fails the validation as written and passes the corrected one; nothing else differs. */
  lemma ReminderTypeRejectedAsWritten(t: string)
    ensures TypeErrorsAsWritten(EventReminder) == {"notification_type"}
    ensures TypeErrors(EventReminder) == {}
    ensures t != EventReminder ==> (TypeErrors(t) == {} <==> TypeErrorsAsWritten(t) == {})
  {
    assert EventReminder != ThreadReply && EventReminder != Mention by {
      assert EventReminder[0] == 'e' && ThreadReply[0] == 't' && Mention[0] == 'm';
    }
  }

  /**
   * `description`: fixed text per type, naming the actor by first name, with a generic
   * fallback for any other type.
   */
  function Description(t: string, actorFirstName: string): (r: string)
    ensures t == ThreadReply ==> r == actorFirstName + " replied to your message"
    ensures t == Mention ==> r == actorFirstName + " mentioned you"
    ensures t !in TypesAsWritten ==> r == "You have a new notification"
  {
    if t == ThreadReply then actorFirstName + " replied to your message"
    else if t == Mention then actorFirstName + " mentioned you"
    else "You have a new notification"
  }

  /** The dedup key the services look up before creating: recipient, actor, message, type. */
  predicate HasKey(rows: seq<Notification>, userId: nat, actorId: nat, messageId: nat, t: string) {
    exists i :: 0 <= i < |rows| && rows[i].userId == userId && rows[i].actorId == actorId
                && rows[i].messageId == messageId && rows[i].notificationType == t
  }

  /** No two notifications share a dedup key. */
  predicate KeysUnique(rows: seq<Notification>) {
    forall i, j :: 0 <= i < j < |rows| ==>
      !(rows[i].userId == rows[j].userId && rows[i].actorId == rows[j].actorId
        && rows[i].messageId == rows[j].messageId && rows[i].notificationType == rows[j].notificationType)
  }

  /** `user.notifications.unread.count` */
  function UnreadCount(rows: seq<Notification>, userId: nat): (n: nat)
    ensures n <= |rows|
    ensures n == 0 <==> forall i :: 0 <= i < |rows| && rows[i].userId == userId ==> rows[i].IsRead()
  {
    if rows == [] then 0
    else
      UnreadCount(rows[..|rows| - 1], userId)
      + (if rows[|rows| - 1].userId == userId && rows[|rows| - 1].IsUnread() then 1 else 0)
  }

  /** `user.notifications.unread.pluck(:id)`, in table order. */
  function UnreadIds(rows: seq<Notification>, userId: nat): (ids: seq<nat>)
    ensures |ids| == UnreadCount(rows, userId)
    ensures forall id :: id in ids <==> exists i :: 0 <= i < |rows| && rows[i].id == id && rows[i].userId == userId && rows[i].IsUnread()
  {
    if rows == [] then []
    else
      var init := rows[..|rows| - 1];
      var last := rows[|rows| - 1];
      var rest := UnreadIds(init, userId);
      assert forall i :: 0 <= i < |init| ==> init[i] == rows[i];
      if last.userId == userId && last.IsUnread() then rest + [last.id] else rest
  }

  /** The rows after the bulk update: the user's unread notifications stamped `now`, nothing else touched. */
  function AllReadFor(rows: seq<Notification>, userId: nat, now: int): (r: seq<Notification>)
    ensures |r| == |rows|
    ensures forall i :: 0 <= i < |rows| ==>
      r[i] == if rows[i].userId == userId && rows[i].IsUnread() then rows[i].(readAt := Some(now)) else rows[i]
  {
    if rows == [] then [] else AllReadFor(rows[..|rows| - 1], userId, now) + [MarkedFor(rows[|rows| - 1], userId, now)]
  }

  function MarkedFor(n: Notification, userId: nat, now: int): Notification {
    if n.userId == userId && n.IsUnread() then n.(readAt := Some(now)) else n
  }

  /** After the bulk update the user has nothing unread, and every other user's count is unchanged. */
  lemma {:induction false} AllReadForCounts(rows: seq<Notification>, userId: nat, now: int, other: nat)
    ensures UnreadCount(AllReadFor(rows, userId, now), userId) == 0
    ensures other != userId ==> UnreadCount(AllReadFor(rows, userId, now), other) == UnreadCount(rows, other)
  {
    if rows != [] {
      var init := rows[..|rows| - 1];
      AllReadForCounts(init, userId, now, other);
      var r := AllReadFor(rows, userId, now);
      assert r[..|r| - 1] == AllReadFor(init, userId, now);
    }
  }

  /** Stamping one unread notification takes exactly one off its recipient's unread count. */
  lemma {:induction false} MarkOneCount(rows: seq<Notification>, i: nat, now: int)
    requires i < |rows| && rows[i].IsUnread()
    ensures UnreadCount(rows[i := rows[i].(readAt := Some(now))], rows[i].userId) == UnreadCount(rows, rows[i].userId) - 1
  {
    var r := rows[i := rows[i].(readAt := Some(now))];
    var u := rows[i].userId;
    if i == |rows| - 1 {
      assert r[..|r| - 1] == rows[..|rows| - 1];
    } else {
      var init := rows[..|rows| - 1];
      MarkOneCount(init, i, now);
      assert r[..|r| - 1] == init[i := init[i].(readAt := Some(now))];
    }
  }

  /** The bulk update keeps ids and types, so it keeps the table invariant. */
  lemma AllReadForValid(rows: seq<Notification>, nextId: nat, userId: nat, now: int)
    requires RowsValid(rows, nextId)
    ensures RowsValid(AllReadFor(rows, userId, now), nextId)
  {
  }

  /** A fresh notification keeps the invariant. */
  lemma AppendKeepsValid(rows: seq<Notification>, nextId: nat, x: Notification)
    requires RowsValid(rows, nextId) && x.id == nextId && x.notificationType in Types
    ensures RowsValid(rows + [x], nextId + 1)
  {
  }

  /** The `update_all` of `mark_all_read_for`, row by row: the user's unread rows get `now`. */
  method MarkAll(rows: seq<Notification>, userId: nat, now: int) returns (r: seq<Notification>)
    ensures r == AllReadFor(rows, userId, now)
  {
    r := rows;
    var i := 0;
    while i < |r|
      invariant 0 <= i <= |r| && |r| == |rows|
      invariant forall j :: 0 <= j < i ==> r[j] == MarkedFor(rows[j], userId, now)
      invariant forall j :: i <= j < |r| ==> r[j] == rows[j]
    {
      if r[i].userId == userId && r[i].IsUnread() {
        r := r[i := r[i].(readAt := Some(now))];
      }
      i := i + 1;
    }
    var spec := AllReadFor(rows, userId, now);
    assert forall j :: 0 <= j < |r| ==> r[j] == spec[j];
  }

  /** Notification ids are unique and below `nextId`; types are valid. */
  ghost predicate RowsValid(rows: seq<Notification>, nextId: nat) {
    (forall i :: 0 <= i < |rows| ==> rows[i].id < nextId && rows[i].notificationType in Types)
    && (forall i, j :: 0 <= i < j < |rows| ==> rows[i].id != rows[j].id)
  }

  /** The position of the notification with this id that belongs to this user. */
  function IndexFor(rows: seq<Notification>, id: nat, userId: nat): (r: Option<nat>)
    ensures r.Some? ==> r.value < |rows| && rows[r.value].id == id && rows[r.value].userId == userId
    ensures r.None? ==> forall i :: 0 <= i < |rows| ==> rows[i].id != id || rows[i].userId != userId
  {
    if rows == [] then None
    else if rows[|rows| - 1].id == id && rows[|rows| - 1].userId == userId then Some(|rows| - 1)
    else IndexFor(rows[..|rows| - 1], id, userId)
  }

  /** The notifications table. */
  class NotificationTable {
    var rows: seq<Notification>
    var nextId: nat

    ghost predicate Valid()
      reads this
    {
      RowsValid(rows, nextId)
    }

    constructor ()
      ensures Valid() && rows == []
    {
      rows := [];
      nextId := 1;
    }

    /**
     * `create!`: an unread notification is stored and announced to its recipient alone, with
     * the recipient's new unread count. A type outside the list fails validation: nothing is
     * stored (the exception `create!` raises).
     */
    method Create(userId: nat, actorId: nat, messageId: nat, t: string, now: int)
      returns (n: Option<Notification>, event: Option<Event>)
      requires Valid()
      modifies this
      ensures Valid()
      ensures t !in Types ==> n.None? && event.None? && rows == old(rows) && nextId == old(nextId)
      ensures t in Types ==>
        n == Some(Notification(old(nextId), userId, actorId, messageId, t, None, now))
        && rows == old(rows) + [n.value]
        && event == Some(NewNotification(userId, n.value.id, t, messageId, UnreadCount(old(rows), userId) + 1))
    {
      if TypeErrors(t) != {} {
        return None, None;
      }
      var x := Notification(nextId, userId, actorId, messageId, t, None, now);
      AppendKeepsValid(rows, nextId, x);
      var count := UnreadCount(rows, userId) + 1;
      rows := rows + [x];
      nextId := nextId + 1;
      return Some(x), Some(NewNotification(userId, x.id, t, messageId, count));
    }

    /**
     * `mark_read!` on the recipient's notification `id`: an unread one is stamped `now` and a
     * read event with the recomputed count goes out; a read one is left alone, silently.
     */
    method MarkRead(id: nat, userId: nat, now: int) returns (event: Option<Event>)
      requires Valid()
      modifies this
      ensures Valid() && nextId == old(nextId)
      ensures match IndexFor(old(rows), id, userId)
        case None => event.None? && rows == old(rows)
        case Some(i) =>
          if old(rows)[i].IsRead() then event.None? && rows == old(rows)
          else
            rows == old(rows)[i := old(rows)[i].(readAt := Some(now))]
            && event == Some(NotificationRead(userId, id, UnreadCount(old(rows), userId) - 1))
    {
      var k := IndexFor(rows, id, userId);
      if k.None? || rows[k.value].IsRead() {
        return None;
      }
      MarkOneCount(rows, k.value, now);
      rows := rows[k.value := rows[k.value].(readAt := Some(now))];
      event := Some(NotificationRead(userId, id, UnreadCount(rows, userId)));
    }

    /**
     * `mark_all_read_for`: collects the user's unread ids, then stamps each of them `now`;
     * the event lists exactly the ids that were unread.
     */
    method MarkAllReadFor(userId: nat, now: int) returns (event: Event)
      requires Valid()
      modifies this
      ensures Valid() && nextId == old(nextId)
      ensures rows == AllReadFor(old(rows), userId, now)
      ensures event == NotificationsRead(userId, UnreadIds(old(rows), userId))
      ensures UnreadCount(rows, userId) == 0
    {
      var ids := UnreadIds(rows, userId);
      var r := MarkAll(rows, userId, now);
      AllReadForCounts(rows, userId, now, userId);
      AllReadForValid(rows, nextId, userId, now);
      rows := r;
      assert RowsValid(rows, nextId);
      event := NotificationsRead(userId, ids);
    }
  }
}
