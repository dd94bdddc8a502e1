/**
 * Reacting to a message. The guards run in order: the chat must exist, the message must be
 * one of the chat's, and the user must be a member or the chat public. Reacting with an emoji
 * toggles it; destroying a reaction by id is silently ignored unless it is the user's own or
 * the user is an admin.
 */
module MessageReactionsController {
  import opened Wrappers
  import Text
  import Users
  import Memberships
  import Messages
  import Reactions
  import Chats
  import ChatsController
  import opened Web

  /** What a toggle did. */
  datatype Outcome = Added | Removed

  /** The guard chain in front of both actions; `None` lets the action run. */
  function Refusal(chats: seq<Chats.Chat>, rows: seq<Memberships.Membership>, msgs: seq<Messages.Message>,
                   me: Users.User, chatId: nat, messageId: nat): (r: Option<Response>)
    ensures r.None? <==>
      (exists i :: 0 <= i < |chats| && Chats.IndexIn(chats, chatId) == Some(i) && ChatsController.CanAccess(chats[i], rows, me.id))
      && (exists m :: m in msgs && Messages.FindById(msgs, messageId) == Some(m) && m.chatId == chatId)
    ensures r == Some(ChatsController.NoAccess) ==>
      exists m :: m in msgs && Messages.FindById(msgs, messageId) == Some(m) && m.chatId == chatId
  {
    match Chats.IndexIn(chats, chatId)
    case None => Some(Status(NotFound))
    case Some(i) =>
      match Messages.FindById(msgs, messageId)
      case None => Some(Status(NotFound))
      case Some(m) =>
        if m.chatId != chatId then Some(Status(NotFound))
        else if !ChatsController.CanAccess(chats[i], rows, me.id) then Some(ChatsController.NoAccess)
        else None
  }

  /**
   * `create`: past the guards, a blank emoji is refused with 422; otherwise the user's reaction
   * with that emoji is removed if present and added if not, so the key set is toggled.
   */
  method Create(chats: Chats.ChatTable, members: Memberships.MembershipTable, msgs: seq<Messages.Message>,
                reactions: Reactions.ReactionTable, me: Users.User, chatId: nat, messageId: nat, emoji: string)
    returns (resp: Response, outcome: Option<Outcome>)
    requires reactions.Valid()
    modifies reactions
    ensures reactions.Valid()
    ensures var refused := Refusal(chats.rows, members.rows, msgs, me, chatId, messageId);
      if refused.Some? then resp == refused.value && outcome.None? && reactions.rows == old(reactions.rows)
      else if Text.IsBlank(emoji) then
        resp == Status(Unprocessable) && outcome.None? && reactions.rows == old(reactions.rows)
      else
        var k := Reactions.Key(messageId, me.id, emoji);
        resp == Redirect(ChatPage(chatId), NoFlash)
        && Reactions.Keys(reactions.rows) == Reactions.Toggled(old(Reactions.Keys(reactions.rows)), k)
        && outcome == Some(if k in old(Reactions.Keys(reactions.rows)) then Removed else Added)
  {
    var refused := Refusal(chats.rows, members.rows, msgs, me, chatId, messageId);
    if refused.Some? {
      return refused.value, None;
    }
    if Text.IsBlank(emoji) {
      return Status(Unprocessable), None;
    }
    var k := Reactions.Key(messageId, me.id, emoji);
    var removed := reactions.Remove(k);
    if removed {
      outcome := Some(Removed);
    } else {
      var added := reactions.Add(k);
      outcome := Some(Added);
    }
    resp := Redirect(ChatPage(chatId), NoFlash);
  }

  /**
   * `destroy`: past the guards, the reaction must be one of the message's (404 otherwise); it
   * is destroyed only when it is the user's own or the user is an admin, and the answer is
   * the same either way.
   */
  method Destroy(chats: Chats.ChatTable, members: Memberships.MembershipTable, msgs: seq<Messages.Message>,
                 reactions: Reactions.ReactionTable, me: Users.User, chatId: nat, messageId: nat, reactionId: nat)
    returns (resp: Response)
    requires reactions.Valid()
    modifies reactions
    ensures reactions.Valid()
    ensures var refused := Refusal(chats.rows, members.rows, msgs, me, chatId, messageId);
      if refused.Some? then resp == refused.value && reactions.rows == old(reactions.rows)
      else match Reactions.IndexOfId(old(reactions.rows), reactionId)
        case None => resp == Status(NotFound) && reactions.rows == old(reactions.rows)
        case Some(i) =>
          var x := old(reactions.rows)[i];
          if x.messageId != messageId then resp == Status(NotFound) && reactions.rows == old(reactions.rows)
          else
            resp == Redirect(ChatPage(chatId), NoFlash)
            && reactions.rows == if x.userId == me.id || me.IsAdmin()
                                 then old(reactions.rows)[..i] + old(reactions.rows)[i + 1..]
                                 else old(reactions.rows)
  {
    var refused := Refusal(chats.rows, members.rows, msgs, me, chatId, messageId);
    if refused.Some? {
      return refused.value;
    }
    var found := Reactions.IndexOfId(reactions.rows, reactionId);
    if found.None? || reactions.rows[found.value].messageId != messageId {
      return Status(NotFound);
    }
    var x := reactions.rows[found.value];
    if x.userId == me.id || me.IsAdmin() {
      reactions.DestroyAt(found.value);
    }
    return Redirect(ChatPage(chatId), NoFlash);
  }
}
