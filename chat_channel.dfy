/**
 * The per-chat real-time channel: who may subscribe, the typing and mark-read actions (both
 * guarded by the same access rule as the controllers), and the payloads broadcast to a chat's
 * stream. The transport itself is left out: a broadcast is returned as a value.
 */
module ChatChannel {
  import opened Wrappers
  import opened Text
  import Users
  import Memberships
  import Messages
  import Chats
  import ChatsController

  const PreviewLength: nat := 40
  const AttachmentPlaceholder: string := "\U{1F4CE} Attachment"

  /** What goes out on a chat's stream; rendered HTML is left out. */
  datatype Broadcast =
    | Typing(chatId: nat, userId: nat, userName: string, isTyping: bool)
    | NewMessage(chatId: nat, messageId: nat, userId: nat)
    | MessageUpdated(chatId: nat, messageId: nat)
    | MessageDeleted(chatId: nat, messageId: nat)
    | ReactionChange(chatId: nat, eventType: string, messageId: nat)
    | MessagePreview(chatId: nat, senderId: nat, senderName: string, preview: string)

  /** How `subscribed` ends: streaming the chat, rejected, or failed because the chat does not exist. */
  datatype Subscription = Streaming | Rejected | ChatMissing

  /** One subscription of one user's connection to the channel. */
  class Connection {
    const user: Users.User
    var chat: Option<Chats.Chat>
    var streaming: bool

    constructor (user: Users.User)
      ensures this.user == user && chat.None? && !streaming
    {
      this.user := user;
      chat := None;
      streaming := false;
    }

    /**
     * `subscribed`: the chat is looked up (a missing one fails the subscription), remembered,
     * and streamed only to a member or, for a public chat, to anyone.
     */
    method Subscribed(chats: seq<Chats.Chat>, rows: seq<Memberships.Membership>, chatId: nat)
      returns (outcome: Subscription)
      modifies this
      ensures match Chats.IndexIn(chats, chatId)
        case None => outcome == ChatMissing && chat == old(chat) && streaming == old(streaming)
        case Some(i) =>
          chat == Some(chats[i])
          && (outcome == Streaming <==> ChatsController.CanAccess(chats[i], rows, user.id))
          && (outcome == Streaming || outcome == Rejected)
          && streaming == (outcome == Streaming || old(streaming))
    {
      var k := Chats.IndexIn(chats, chatId);
      if k.None? {
        return ChatMissing;
      }
      chat := Some(chats[k.value]);
      if !ChatsController.CanAccess(chats[k.value], rows, user.id) {
        return Rejected;
      }
      streaming := true;
      return Streaming;
    }

    /** `unsubscribed`: every stream stops. */
    method Unsubscribed()
      modifies this
      ensures !streaming && chat == old(chat)
    {
      streaming := false;
    }

    /**
     * `typing`: with a remembered chat the user may still access (checked against the current
     * memberships), the flag is echoed to the whole chat, the sender included, with the
     * sender's id and full name; otherwise nothing is sent.
     */
    function TypingBroadcast(rows: seq<Memberships.Membership>, isTyping: bool): (b: Option<Broadcast>)
      reads this
      ensures b.Some? <==> chat.Some? && ChatsController.CanAccess(chat.value, rows, user.id)
      ensures b.Some? ==>
        b.value.Typing? && b.value.chatId == chat.value.id && b.value.userId == user.id
        && b.value.userName == Users.FullName(user.firstName, user.lastName) && b.value.isTyping == isTyping
    {
      match chat
      case None => None
      case Some(c) =>
        if ChatsController.CanAccess(c, rows, user.id) then
          Some(Typing(c.id, user.id, Users.FullName(user.firstName, user.lastName), isTyping))
        else None
    }

    /** `mark_read`: with access, the user's read cursor in the chat moves to `now`; otherwise nothing. */
    method MarkRead(members: Memberships.MembershipTable, now: int)
      requires members.Valid()
      modifies members
      ensures members.Valid()
      ensures match chat
        case None => members.rows == old(members.rows)
        case Some(c) =>
          if !ChatsController.CanAccess(c, old(members.rows), user.id) then members.rows == old(members.rows)
          else members.rows == match Memberships.Find(old(members.rows), c.id, user.id)
            case None => old(members.rows)
            case Some(k) => old(members.rows)[k := old(members.rows)[k].(lastReadAt := Some(now))]
    {
      if chat.None? || !ChatsController.CanAccess(chat.value, members.rows, user.id) {
        return;
      }
      members.MarkAsRead(chat.value.id, user.id, now);
    }
  }

  /**
   * The sidebar preview of a message: its display content cut to 40 characters, and the
   * attachment placeholder in place of a blank preview on a message with attachments.
   */
  function PreviewText(m: Messages.Message): (r: string)
    ensures m.IsDeleted() ==> r == "[Message deleted]"
    ensures !m.IsDeleted() && |m.content| <= PreviewLength && !IsBlank(m.content) ==> r == m.content
    ensures !m.IsDeleted() && |m.content| > PreviewLength ==>
      |r| == PreviewLength && r[..PreviewLength - 3] == m.content[..PreviewLength - 3] && EndsWith(r, "...")
    ensures !m.IsDeleted() && |m.content| <= PreviewLength && IsBlank(m.content) ==>
      r == if m.HasAttachments() then AttachmentPlaceholder else m.content
    ensures |r| <= PreviewLength
  {
    var preview := Truncate(Messages.DisplayContent(m), PreviewLength);
    assert m.IsDeleted() ==> !IsBlank(preview) by {
      if m.IsDeleted() {
        assert preview[0] == '[';
      }
    }
    assert !m.IsDeleted() && |m.content| > PreviewLength ==> !IsBlank(preview) by {
      if !m.IsDeleted() && |m.content| > PreviewLength {
        assert preview[|preview| - 1] == '.';
      }
    }
    if IsBlank(preview) && m.HasAttachments() then AttachmentPlaceholder else preview
  }

  /** `broadcast_message_preview`: one payload for the whole chat, naming the sender by first name. */
  function PreviewBroadcast(c: Chats.Chat, m: Messages.Message, sender: Users.User): (b: Broadcast)
    ensures b.MessagePreview? && b.chatId == c.id && b.senderId == m.userId && b.senderName == sender.firstName
    ensures b.preview == PreviewText(m)
  {
    MessagePreview(c.id, m.userId, sender.firstName, PreviewText(m))
  }

  /** `broadcast_reaction_change`: the event type is "reaction_" followed by the action. */
  function ReactionEventType(action: string): (t: string)
    ensures |t| == 9 + |action| && t[9..] == action
    ensures StartsWith(t, "reaction_")
  {
    "reaction_" + action
  }
}
