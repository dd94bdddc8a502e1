/**
 * The notification bell's JSON endpoints: the recipient's latest notifications with their
 * unread count, marking one notification read (scoped to the recipient) and marking all read.
 */
module NotificationsController {
  import opened Wrappers
  import opened Text
  import Seqs
  import Sorting
  import Users
  import Messages
  import Notifications

  const PageSize: nat := 50
  const Minute: int := 60
  const Hour: int := 3600
  const Day: int := 86400

  /** `(distance / 86400).to_i`: whole days, the quotient truncated toward zero. */
  function WholeDays(distance: int): (q: int)
    ensures distance >= 0 ==> q * Day <= distance < (q + 1) * Day
    ensures distance < 0 ==> (q - 1) * Day < distance <= q * Day
    ensures distance >= 0 ==> q >= 0
    ensures distance < 0 ==> q <= 0
  {
    if distance >= 0 then distance / Day else -((-distance) / Day)
  }

  /**
   * `time_ago_in_words` on a whole number of seconds: under a minute is "just now", then whole
   * minutes, whole hours, and whole days (truncated toward zero) for everything else, negative
   * distances included.
   */
  function TimeAgo(distance: int): (r: string)
    ensures 0 <= distance < Minute <==> r == "just now"
    ensures Minute <= distance < Hour ==>
      exists n :: 1 <= n < 60 && n * Minute <= distance < (n + 1) * Minute && r == NatToString(n) + "m ago"
    ensures Hour <= distance < Day ==>
      exists n :: 1 <= n < 24 && n * Hour <= distance < (n + 1) * Hour && r == NatToString(n) + "h ago"
    ensures distance >= Day ==>
      exists n: nat :: n >= 1 && n * Day <= distance < (n + 1) * Day && r == NatToString(n) + "d ago"
    ensures distance < 0 ==> r == IntToString(WholeDays(distance)) + "d ago"
  {
    if 0 <= distance <= 59 then "just now"
    else
      var r :=
        if 60 <= distance <= 3599 then NatToString(distance / 60) + "m ago"
        else if 3600 <= distance <= 86399 then NatToString(distance / 3600) + "h ago"
        else IntToString(WholeDays(distance)) + "d ago";
      assert r[|r| - 1] == 'o';
      r
  }

  /** The recipient's notifications, newest first (`recent`). */
  function Recent(rows: seq<Notifications.Notification>, userId: nat): (r: seq<Notifications.Notification>)
    ensures forall n :: n in r <==> n in rows && n.userId == userId
    ensures forall i, j :: 0 <= i < j < |r| ==> r[i].createdAt >= r[j].createdAt
  {
    var mine := Seqs.Filter(rows, (n: Notifications.Notification) => n.userId == userId);
    var sorted := Sorting.SortBy(mine, (n: Notifications.Notification) => -n.createdAt);
    assert forall n :: n in sorted <==> n in multiset(sorted);
    assert forall n :: n in mine <==> n in multiset(mine);
    assert forall i, j :: 0 <= i < j < |sorted| ==> -sorted[i].createdAt <= -sorted[j].createdAt;
    sorted
  }

  /** In a list newest first, nothing past a cut is newer than anything before it. */
  lemma SortedPrefixNewest(s: seq<Notifications.Notification>, k: nat)
    requires k <= |s|
    requires forall i, j :: 0 <= i < j < |s| ==> s[i].createdAt >= s[j].createdAt
    ensures forall n, x | n in s && n !in s[..k] && x in s[..k] :: n.createdAt <= x.createdAt
    ensures forall i, j :: 0 <= i < j < k ==> s[..k][i].createdAt >= s[..k][j].createdAt
    ensures forall x | x in s[..k] :: x in s
    ensures k == |s| ==> s[..k] == s
  {
    assert forall i :: 0 <= i < k ==> s[..k][i] == s[i];
    forall n, x | n in s && n !in s[..k] && x in s[..k] ensures n.createdAt <= x.createdAt {
      var j :| 0 <= j < |s| && s[j] == n;
      var i :| 0 <= i < k && s[..k][i] == x;
      assert s[i] == x;
      assert j >= k;
    }
  }

  /**
   * The page `index` lists: the recipient's own notifications, newest first, at most 50, all
   * of them when there are fewer, and none left out is newer than one listed.
   */
  function Listed(rows: seq<Notifications.Notification>, userId: nat): (r: seq<Notifications.Notification>)
    ensures |r| <= PageSize
    ensures forall n | n in r :: n in rows && n.userId == userId
    ensures forall i, j :: 0 <= i < j < |r| ==> r[i].createdAt >= r[j].createdAt
    ensures |r| < PageSize ==> forall n | n in rows && n.userId == userId :: n in r
    ensures forall n, x | n in rows && n.userId == userId && n !in r && x in r :: n.createdAt <= x.createdAt
  {
    var all := Recent(rows, userId);
    var k := if |all| <= PageSize then |all| else PageSize;
    SortedPrefixNewest(all, k);
    all[..k]
  }

  /** One entry of the list; the actor's avatar URL and the ISO timestamp are left out. */
  datatype NotificationJson = NotificationJson(
    id: nat,
    notificationType: string,
    description: string,
    actorName: string,
    chatId: Option<nat>,
    messageId: nat,
    read: bool,
    timeAgo: string)

  /**
   * `notification_json`: the chat is the one of the message the notification is about, absent
   * once that message no longer exists; a reminder is about an event, which has no chat. The
   * time is measured from `now`.
   */
  function Json(n: Notifications.Notification, users: seq<Users.User>, msgs: seq<Messages.Message>, now: int)
    : (j: NotificationJson)
    ensures j.id == n.id && j.messageId == n.messageId && j.notificationType == n.notificationType
    ensures j.read <==> n.IsRead()
    ensures n.notificationType == Notifications.EventReminder ==> j.chatId.None?
    ensures n.notificationType != Notifications.EventReminder ==>
      (j.chatId.Some? <==> Messages.FindById(msgs, n.messageId).Some?)
    ensures j.chatId.Some? ==> j.chatId.value == Messages.FindById(msgs, n.messageId).value.chatId
    ensures j.description == Notifications.Description(n.notificationType, j.actorName)
    ensures j.timeAgo == "just now" <==> 0 <= now - n.createdAt < Minute
  {
    var actorName := match Users.FindById(users, n.actorId)
      case Some(u) => u.firstName
      case None => "";
    var chatId := if n.notificationType == Notifications.EventReminder then None
      else match Messages.FindById(msgs, n.messageId)
        case Some(m) => Some(m.chatId)
        case None => None;
    NotificationJson(n.id, n.notificationType, Notifications.Description(n.notificationType, actorName),
                     actorName, chatId, n.messageId, n.IsRead(), TimeAgo(now - n.createdAt))
  }

  datatype IndexJson = IndexJson(notifications: seq<NotificationJson>, unreadCount: nat)

  /** `index`: the listed page as JSON, in the same order, and the recipient's unread count. */
  function Index(rows: seq<Notifications.Notification>, users: seq<Users.User>, msgs: seq<Messages.Message>,
                 me: Users.User, now: int): (r: IndexJson)
    ensures |r.notifications| == |Listed(rows, me.id)| <= PageSize
    ensures forall i :: 0 <= i < |r.notifications| ==>
      r.notifications[i].id == Listed(rows, me.id)[i].id && (r.notifications[i].read <==> Listed(rows, me.id)[i].IsRead())
    ensures r.unreadCount == 0 <==> forall n | n in rows && n.userId == me.id :: n.IsRead()
  {
    var listed := Listed(rows, me.id);
    IndexJson(seq(|listed|, i requires 0 <= i < |listed| => Json(listed[i], users, msgs, now)),
              Notifications.UnreadCount(rows, me.id))
  }

  /**
   * `mark_read`: the notification is looked up among the current user's own (someone else's
   * id is not found: 404, `None`); it is marked read and the recomputed unread count comes
   * back, one lower when it was unread.
   */
  method MarkRead(notifications: Notifications.NotificationTable, me: Users.User, id: nat, now: int)
    returns (unreadCount: Option<nat>, event: Option<Notifications.Event>)
    requires notifications.Valid()
    modifies notifications
    ensures notifications.Valid()
    ensures match Notifications.IndexFor(old(notifications.rows), id, me.id)
      case None => unreadCount.None? && event.None? && notifications.rows == old(notifications.rows)
      case Some(i) =>
        unreadCount == Some(Notifications.UnreadCount(notifications.rows, me.id))
        && if old(notifications.rows)[i].IsRead() then
             notifications.rows == old(notifications.rows)
           else
             unreadCount.value == Notifications.UnreadCount(old(notifications.rows), me.id) - 1
             && notifications.rows == old(notifications.rows)[i := old(notifications.rows)[i].(readAt := Some(now))]
  {
    var k := Notifications.IndexFor(notifications.rows, id, me.id);
    if k.None? {
      return None, None;
    }
    event := notifications.MarkRead(id, me.id, now);
    if old(notifications.rows)[k.value].IsUnread() {
      Notifications.MarkOneCount(old(notifications.rows), k.value, now);
    }
    unreadCount := Some(Notifications.UnreadCount(notifications.rows, me.id));
  }

  /** `mark_all_read`: everything of the current user's is marked read and the answer is 0. */
  method MarkAllRead(notifications: Notifications.NotificationTable, me: Users.User, now: int)
    returns (unreadCount: nat, event: Notifications.Event)
    requires notifications.Valid()
    modifies notifications
    ensures notifications.Valid()
    ensures notifications.rows == Notifications.AllReadFor(old(notifications.rows), me.id, now)
    ensures unreadCount == 0 == Notifications.UnreadCount(notifications.rows, me.id)
    ensures event == Notifications.NotificationsRead(me.id, Notifications.UnreadIds(old(notifications.rows), me.id))
  {
    event := notifications.MarkAllReadFor(me.id, now);
    unreadCount := 0;
  }
}
