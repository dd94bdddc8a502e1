/**
 * `create_thread_reply_notification`: a reply notifies the author of the message it answers,
 * through a chain of guards that ends in at most one insert.
 */
module NotificationService {
  import opened Wrappers
  import Messages
  import Notifications
  import Memberships

  /**
   * The guards before the dedup check: the message is a reply, its parent exists, the parent
   * is someone else's, is not deleted, and its author wants notifications for the chat
   * (`should_receive_notification?`, read as a membership of the chat with notifications on).
   */
  predicate ReplyNotifies(msgs: seq<Messages.Message>, reply: Messages.Message, memberships: seq<Memberships.Membership>) {
    reply.parentId.Some?
    && match Messages.FindById(msgs, reply.parentId.value)
       case None => false
       case Some(parent) =>
         parent.userId != reply.userId && !parent.IsDeleted() && parent.userId in Memberships.Receivers(memberships, reply.chatId)
  }

  /**
   * When the guards pass and no (parent author, replier, reply, "thread_reply") notification
   * exists, exactly that notification is created; otherwise nothing changes. Either way, once
   * the guards pass the key is present afterwards, so a second call creates nothing.
   */
  method CreateThreadReplyNotification(notifications: Notifications.NotificationTable, msgs: seq<Messages.Message>,
                                       reply: Messages.Message, memberships: seq<Memberships.Membership>, now: int)
    returns (created: Option<Notifications.Notification>)
    requires notifications.Valid()
    modifies notifications
    ensures notifications.Valid()
    ensures !ReplyNotifies(msgs, reply, memberships) ==> created.None? && notifications.rows == old(notifications.rows)
    ensures ReplyNotifies(msgs, reply, memberships) ==>
      var recipient := Messages.FindById(msgs, reply.parentId.value).value.userId;
      Notifications.HasKey(notifications.rows, recipient, reply.userId, reply.id, Notifications.ThreadReply)
      && if Notifications.HasKey(old(notifications.rows), recipient, reply.userId, reply.id, Notifications.ThreadReply)
         then created.None? && notifications.rows == old(notifications.rows)
         else created == Some(Notifications.Notification(old(notifications.nextId), recipient, reply.userId, reply.id,
                                                         Notifications.ThreadReply, None, now))
              && notifications.rows == old(notifications.rows) + [created.value]
    ensures Notifications.KeysUnique(old(notifications.rows)) ==> Notifications.KeysUnique(notifications.rows)
  {
    if reply.parentId.None? {
      return None;
    }
    var parent := Messages.FindById(msgs, reply.parentId.value);
    if parent.None? {
      return None;
    }
    var p := parent.value;
    if p.userId == reply.userId || p.IsDeleted() || p.userId !in Memberships.Receivers(memberships, reply.chatId) {
      return None;
    }
    if Notifications.HasKey(notifications.rows, p.userId, reply.userId, reply.id, Notifications.ThreadReply) {
      return None;
    }
    var n, event := notifications.Create(p.userId, reply.userId, reply.id, Notifications.ThreadReply, now);
    assert notifications.rows[|notifications.rows| - 1] == n.value;
    return n;
  }
}
