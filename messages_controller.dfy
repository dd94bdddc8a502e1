/**
 * Posting, editing and deleting messages in a chat. The guards run in order: the chat must
 * exist, the user must be a member or the chat public, then (for edit and delete) the message
 * must belong to the chat and to the user, unless the user is an admin.
 */
module MessagesController {
  import opened Wrappers
  import Text
  import Users
  import Memberships
  import Messages
  import Chats
  import ChatsController
  import opened Web

  const NotOwner: string := "You can only modify your own messages"

  /**
   * `create`: the message is built in the chat with the current user as author. Once saved the
   * sender's read cursor moves to `now`; a message that fails validation is not stored and
   * the errors come back joined in the alert.
   */
  method Create(chats: Chats.ChatTable, members: Memberships.MembershipTable, messages: Messages.MessageTable,
                me: Users.User, chatId: nat, content: string, parentId: Option<nat>,
                atts: seq<Messages.Attachment>, now: int)
    returns (resp: Response)
    requires members.Valid() && messages.Valid()
    modifies members, messages
    ensures members.Valid() && messages.Valid()
    ensures match chats.IndexOf(chatId)
      case None => resp == Status(NotFound) && members.rows == old(members.rows) && messages.rows == old(messages.rows)
      case Some(i) =>
        if !ChatsController.CanAccess(chats.rows[i], old(members.rows), me.id) then
          resp == ChatsController.NoAccess && members.rows == old(members.rows) && messages.rows == old(messages.rows)
        else if !Messages.ContentValid(content, atts) then
          resp == Redirect(ChatPage(chatId), Alert(Text.Join(Messages.FullMessages(content, atts), ", ")))
          && members.rows == old(members.rows) && messages.rows == old(messages.rows)
        else
          resp == Redirect(ChatPage(chatId), NoFlash)
          && messages.rows == old(messages.rows)
             + [Messages.Message(old(messages.nextId), chatId, me.id, content, now, None, false, parentId, atts, [])]
          && members.rows == match Memberships.Find(old(members.rows), chatId, me.id)
             case None => old(members.rows)
             case Some(k) => old(members.rows)[k := old(members.rows)[k].(lastReadAt := Some(now))]
  {
    var k := chats.IndexOf(chatId);
    if k.None? {
      return Status(NotFound);
    }
    if !ChatsController.CanAccess(chats.rows[k.value], members.rows, me.id) {
      return ChatsController.NoAccess;
    }
    var saved := messages.Create(chatId, me.id, content, parentId, atts, now);
    if saved.None? {
      return Redirect(ChatPage(chatId), Alert(Text.Join(Messages.FullMessages(content, atts), ", ")));
    }
    members.MarkAsRead(chatId, me.id, now);
    return Redirect(ChatPage(chatId), NoFlash);
  }

  /**
   * The guard chain in front of `update` and `destroy`: the chat, access, the message within
   * that chat, then ownership. `None` lets the action run.
   */
  function Refusal(chats: seq<Chats.Chat>, rows: seq<Memberships.Membership>, msgs: seq<Messages.Message>,
                   me: Users.User, chatId: nat, messageId: nat): (r: Option<Response>)
    ensures r.None? <==>
      (exists i :: 0 <= i < |chats| && chats[i].id == chatId && ChatsController.CanAccess(chats[i], rows, me.id)
                   && Chats.IndexIn(chats, chatId) == Some(i))
      && (exists m :: m in msgs && m.id == messageId && m.chatId == chatId && Messages.FindById(msgs, messageId) == Some(m)
                      && (m.userId == me.id || me.IsAdmin()))
    ensures r.Some? && r.value == Redirect(ChatPage(chatId), Alert(NotOwner)) ==>
      !me.IsAdmin() && exists m :: m in msgs && m.id == messageId && m.chatId == chatId && m.userId != me.id
  {
    match Chats.IndexIn(chats, chatId)
    case None => Some(Status(NotFound))
    case Some(i) =>
      if !ChatsController.CanAccess(chats[i], rows, me.id) then Some(ChatsController.NoAccess)
      else match Messages.FindById(msgs, messageId)
        case None => Some(Status(NotFound))
        case Some(m) =>
          if m.chatId != chatId then Some(Status(NotFound))
          else if !(m.userId == me.id || me.IsAdmin()) then Some(Redirect(ChatPage(chatId), Alert(NotOwner)))
          else None
  }

  /**
   * `update`: past the guards, `edit!` replaces the content and marks the message edited; new
   * content that fails validation leaves it unchanged and alerts.
   */
  method Update(chats: Chats.ChatTable, members: Memberships.MembershipTable, messages: Messages.MessageTable,
                me: Users.User, chatId: nat, messageId: nat, content: string)
    returns (resp: Response)
    requires messages.Valid()
    modifies messages
    ensures messages.Valid()
    ensures var refused := Refusal(chats.rows, members.rows, old(messages.rows), me, chatId, messageId);
      if refused.Some? then resp == refused.value && messages.rows == old(messages.rows)
      else
        match old(messages.IndexOf(messageId))
        case None => false
        case Some(i) =>
          var m := old(messages.rows)[i];
          if Messages.ContentValid(content, m.attachments) then
            resp == Redirect(ChatPage(chatId), NoFlash)
            && messages.rows == old(messages.rows)[i := m.(content := content, edited := true)]
          else
            resp == Redirect(ChatPage(chatId), Alert("Failed to update message")) && messages.rows == old(messages.rows)
  {
    var refused := Refusal(chats.rows, members.rows, messages.rows, me, chatId, messageId);
    if refused.Some? {
      return refused.value;
    }
    var ok := messages.Edit(messageId, content);
    if ok {
      return Redirect(ChatPage(chatId), NoFlash);
    }
    return Redirect(ChatPage(chatId), Alert("Failed to update message"));
  }

  /** `destroy`: past the guards, the message is soft-deleted at `now`. */
  method Destroy(chats: Chats.ChatTable, members: Memberships.MembershipTable, messages: Messages.MessageTable,
                 me: Users.User, chatId: nat, messageId: nat, now: int)
    returns (resp: Response)
    requires messages.Valid()
    modifies messages
    ensures messages.Valid()
    ensures var refused := Refusal(chats.rows, members.rows, old(messages.rows), me, chatId, messageId);
      if refused.Some? then resp == refused.value && messages.rows == old(messages.rows)
      else
        match old(messages.IndexOf(messageId))
        case None => false
        case Some(i) =>
          resp == Redirect(ChatPage(chatId), Notice("Message deleted"))
          && messages.rows == old(messages.rows)[i := old(messages.rows)[i].(deletedAt := Some(now))]
  {
    var refused := Refusal(chats.rows, members.rows, messages.rows, me, chatId, messageId);
    if refused.Some? {
      return refused.value;
    }
    messages.SoftDelete(messageId, now);
    return Redirect(ChatPage(chatId), Notice("Message deleted"));
  }
}
