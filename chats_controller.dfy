/**
 * The chat actions: type dispatch on create, group creation with its member loop, the
 * group-only edit and membership actions, the creator-or-admin destroy with its cascade,
 * leaving, and the member-or-public access guard in front of them.
 */
module ChatsController {
  import opened Wrappers
  import Seqs
  import Sorting
  import Users
  import Memberships
  import Messages
  import Reactions
  import Receipts
  import Chats
  import opened Web

  /** `authorize_chat_access`, shared by every chat-scoped controller and the chat channel. */
  predicate CanAccess(c: Chats.Chat, rows: seq<Memberships.Membership>, userId: nat) {
    Memberships.IsMember(rows, c.id, userId) || c.IsPublic()
  }

  const NoAccess: Response := Redirect(ChatsIndex(None), Alert("You don't have access to this chat"))

  /** A message is shown in the conversation when it is in the chat and not deleted. */
  predicate Visible(m: Messages.Message, chatId: nat) {
    m.chatId == chatId && !m.IsDeleted()
  }

  const PageSize: nat := 50

  /** The chat's visible messages, oldest first. */
  function Chronological(msgs: seq<Messages.Message>, chatId: nat): (r: seq<Messages.Message>)
    ensures forall m :: m in r <==> m in msgs && Visible(m, chatId)
    ensures forall i, j :: 0 <= i < j < |r| ==> r[i].createdAt <= r[j].createdAt
  {
    var visible := Seqs.Filter(msgs, (m: Messages.Message) => Visible(m, chatId));
    var sorted := Sorting.SortBy(visible, (m: Messages.Message) => m.createdAt);
    assert forall m :: m in sorted <==> m in multiset(sorted);
    assert forall m :: m in visible <==> m in multiset(visible);
    sorted
  }

  /** In a list sorted by time, nothing past a cut is older than anything before it. */
  lemma SortedPrefixEarliest(s: seq<Messages.Message>, k: nat)
    requires k <= |s|
    requires forall i, j :: 0 <= i < j < |s| ==> s[i].createdAt <= s[j].createdAt
    ensures forall m, x | m in s && m !in s[..k] && x in s[..k] :: x.createdAt <= m.createdAt
  {
    forall m, x | m in s && m !in s[..k] && x in s[..k] ensures x.createdAt <= m.createdAt {
      var j :| 0 <= j < |s| && s[j] == m;
      var i :| 0 <= i < k && s[..k][i] == x;
      assert s[i] == x;
      assert j >= k;
    }
  }

  /**
   * The messages `show` lists: the chat's messages that are not deleted, oldest first, at most
   * 50, and no visible message left out is older than one listed.
   */
  function ShownMessages(msgs: seq<Messages.Message>, chatId: nat): (r: seq<Messages.Message>)
    ensures |r| <= PageSize
    ensures forall m | m in r :: m in msgs && Visible(m, chatId)
    ensures forall i, j :: 0 <= i < j < |r| ==> r[i].createdAt <= r[j].createdAt
    ensures |r| < PageSize ==> forall m | m in msgs && Visible(m, chatId) :: m in r
    ensures forall m, x | m in msgs && Visible(m, chatId) && m !in r && x in r :: x.createdAt <= m.createdAt
  {
    var all := Chronological(msgs, chatId);
    var k := if |all| <= PageSize then |all| else PageSize;
    SortedPrefixEarliest(all, k);
    assert forall i :: 0 <= i < k ==> all[..k][i] == all[i];
    assert k == |all| ==> all[..k] == all;
    all[..k]
  }

  /** `show`: past the guards, the sender's cursor moves to `now` and the first page is listed. */
  method Show(chats: Chats.ChatTable, members: Memberships.MembershipTable, msgs: seq<Messages.Message>,
              me: Users.User, chatId: nat, now: int)
    returns (resp: Response, shown: seq<Messages.Message>)
    requires members.Valid()
    modifies members
    ensures members.Valid()
    ensures match chats.IndexOf(chatId)
      case None => resp == Status(NotFound) && shown == [] && members.rows == old(members.rows)
      case Some(i) =>
        if !CanAccess(chats.rows[i], old(members.rows), me.id) then
          resp == NoAccess && shown == [] && members.rows == old(members.rows)
        else
          resp == Status(Success) && shown == ShownMessages(msgs, chatId)
          && members.rows == match Memberships.Find(old(members.rows), chatId, me.id)
             case None => old(members.rows)
             case Some(k) => old(members.rows)[k := old(members.rows)[k].(lastReadAt := Some(now))]
  {
    var k := chats.IndexOf(chatId);
    if k.None? {
      return Status(NotFound), [];
    }
    if !CanAccess(chats.rows[k.value], members.rows, me.id) {
      return NoAccess, [];
    }
    shown := ShownMessages(msgs, chatId);
    members.MarkAsRead(chatId, me.id, now);
    resp := Status(Success);
  }

  /**
   * `create`: "direct" goes through `find_or_create_direct` with the chosen user, "group"
   * through group creation; any other type, "public" included, is refused.
   */
  method Create(chats: Chats.ChatTable, members: Memberships.MembershipTable, users: seq<Users.User>,
                me: Users.User, chatType: Option<string>, otherUserId: nat, name: Option<string>,
                memberIds: set<nat>)
    returns (resp: Response)
    requires chats.Valid() && members.Valid()
    modifies chats, members
    ensures chats.Valid() && members.Valid()
    ensures chatType != Some("direct") && chatType != Some("group") ==>
      resp == Redirect(ChatsIndex(None), Alert("Invalid chat type"))
      && chats.rows == old(chats.rows) && members.rows == old(members.rows)
    ensures chatType == Some("direct") && Users.FindById(users, otherUserId).None? ==>
      resp == Redirect(ChatsIndex(None), Alert("User not found"))
      && chats.rows == old(chats.rows) && members.rows == old(members.rows)
    ensures chatType == Some("direct") && Users.FindById(users, otherUserId).Some? ==>
      DirectOpened(chats, members, me.id, otherUserId, resp)
      && (me.id != otherUserId ==>
            var found := Chats.FirstDirect(chats.rows, members.rows, me.id, otherUserId);
            found.Some? && chats.rows[found.value].id == resp.to.activeChat.value)
    ensures chatType == Some("group") ==> GroupCreated(chats, members, users, me, name, memberIds, resp)
  {
    if chatType == Some("direct") {
      var other := Users.FindById(users, otherUserId);
      if other.None? {
        return Redirect(ChatsIndex(None), Alert("User not found"));
      }
      var c := Chats.FindOrCreateDirect(chats, members, me.id, other.value.id);
      return Redirect(ChatsIndex(Some(c.id)), NoFlash);
    } else if chatType == Some("group") {
      resp := CreateGroup(chats, members, users, me, name, memberIds);
    } else {
      return Redirect(ChatsIndex(None), Alert("Invalid chat type"));
    }
  }

  /**
   * What opening a direct chat leaves behind: a redirect to the first direct chat of the two
   * users, with nothing written, when there is one; otherwise a redirect to a new unnamed direct
   * chat appended under the next id, both users members of it, earlier memberships kept and only
   * memberships of the new chat added. A user asking for a chat with themselves always gets a
   * new chat, since no direct chat is between a user and themselves.
   */
  twostate predicate DirectOpened(chats: Chats.ChatTable, members: Memberships.MembershipTable, meId: nat, otherId: nat,
                                  resp: Response)
    reads chats, members
  {
    match old(Chats.FirstDirect(chats.rows, members.rows, meId, otherId))
    case Some(i) =>
      i < |old(chats.rows)|
      && resp == Redirect(ChatsIndex(Some(old(chats.rows)[i].id)), NoFlash)
      && chats.rows == old(chats.rows) && members.rows == old(members.rows)
    case None =>
      var c := Chats.Chat(old(chats.nextId), "direct", None, None);
      resp == Redirect(ChatsIndex(Some(c.id)), NoFlash)
      && chats.rows == old(chats.rows) + [c]
      && Memberships.IsMember(members.rows, c.id, meId) && Memberships.IsMember(members.rows, c.id, otherId)
      && |old(members.rows)| <= |members.rows| && members.rows[..|old(members.rows)|] == old(members.rows)
      && (forall k :: |old(members.rows)| <= k < |members.rows| ==> members.rows[k].chatId == c.id)
  }

  /**
   * What group creation leaves behind: with a blank name, a 422 and nothing written; otherwise
   * the chat appended under the next id with the current user as creator, the creator and every
   * stored selected user members of it, earlier memberships kept, and no one else added.
   */
  twostate predicate GroupCreated(chats: Chats.ChatTable, members: Memberships.MembershipTable, users: seq<Users.User>,
                                  me: Users.User, name: Option<string>, memberIds: set<nat>, resp: Response)
    reads chats, members
  {
    if Chats.ChatErrors("group", name) != {} then
      resp == Status(Unprocessable) && chats.rows == old(chats.rows) && members.rows == old(members.rows)
    else
      var c := Chats.Chat(old(chats.nextId), "group", name, Some(me.id));
      resp == Redirect(ChatsIndex(Some(c.id)), Notice("Group chat created successfully"))
      && chats.rows == old(chats.rows) + [c]
      && Memberships.IsMember(members.rows, c.id, me.id)
      && (forall u | u in users && u.id in memberIds :: Memberships.IsMember(members.rows, c.id, u.id))
      && |old(members.rows)| <= |members.rows| && members.rows[..|old(members.rows)|] == old(members.rows)
      && (forall k :: |old(members.rows)| <= k < |members.rows| ==>
            members.rows[k].chatId == c.id
            && (members.rows[k].userId == me.id || members.rows[k].userId in memberIds))
  }

  /**
   * `create_group_chat`: the chat is saved with the current user as creator; only then the
   * creator joins, followed by every stored user whose id was selected. A chat that fails
   * validation (a blank name) is not saved and nobody joins.
   */
  method CreateGroup(chats: Chats.ChatTable, members: Memberships.MembershipTable, users: seq<Users.User>,
                     me: Users.User, name: Option<string>, memberIds: set<nat>)
    returns (resp: Response)
    requires chats.Valid() && members.Valid()
    modifies chats, members
    ensures chats.Valid() && members.Valid()
    ensures GroupCreated(chats, members, users, me, name, memberIds, resp)
  {
    var created := chats.Create(Some("group"), name, Some(me.id));
    if created.Err? {
      return Status(Unprocessable);
    }
    var c := created.value;
    ghost var rows0 := members.rows;
    var m := members.AddMember(c.id, me.id);
    ghost var rows1 := members.rows;
    AddSelected(members, c.id, me.id, users, memberIds);
    AppendedTwice(rows0, rows1, members.rows, c.id, me.id, memberIds);
    return Redirect(ChatsIndex(Some(c.id)), Notice("Group chat created successfully"));
  }

  /** The creator's membership followed by the selected users' ones: only memberships of the chat are added. */
  lemma AppendedTwice(rows0: seq<Memberships.Membership>, rows1: seq<Memberships.Membership>,
                      rows2: seq<Memberships.Membership>, chatId: nat, creatorId: nat, memberIds: set<nat>)
    requires rows1 == rows0 || rows1 == rows0 + [Memberships.Membership(chatId, creatorId, None, true)]
    requires |rows1| <= |rows2| && rows2[..|rows1|] == rows1
    requires forall k :: |rows1| <= k < |rows2| ==> rows2[k].chatId == chatId && rows2[k].userId in memberIds
    ensures |rows0| <= |rows2| && rows2[..|rows0|] == rows0
    ensures forall k :: |rows0| <= k < |rows2| ==>
              rows2[k].chatId == chatId && (rows2[k].userId == creatorId || rows2[k].userId in memberIds)
  {
    assert rows2[..|rows0|] == rows1[..|rows0|];
    forall k | |rows0| <= k < |rows1| ensures rows2[k].chatId == chatId && rows2[k].userId == creatorId {
      assert rows2[k] == rows1[k];
    }
  }

  /**
   * The `find_each` loop of group creation: every stored user whose id was selected joins
   * the chat, and the creator, already in, stays.
   */
  method AddSelected(members: Memberships.MembershipTable, chatId: nat, creatorId: nat, users: seq<Users.User>,
                     memberIds: set<nat>)
    requires members.Valid() && Memberships.IsMember(members.rows, chatId, creatorId)
    modifies members
    ensures members.Valid()
    ensures Memberships.IsMember(members.rows, chatId, creatorId)
    ensures forall u | u in users && u.id in memberIds :: Memberships.IsMember(members.rows, chatId, u.id)
    ensures |old(members.rows)| <= |members.rows| && members.rows[..|old(members.rows)|] == old(members.rows)
    ensures forall k :: |old(members.rows)| <= k < |members.rows| ==>
              members.rows[k].chatId == chatId && members.rows[k].userId in memberIds
  {
    ghost var rows0 := members.rows;
    var i := 0;
    while i < |users|
      invariant 0 <= i <= |users|
      invariant members.Valid()
      invariant |rows0| <= |members.rows| && members.rows[..|rows0|] == rows0
      invariant forall k :: |rows0| <= k < |members.rows| ==>
                  members.rows[k].chatId == chatId && members.rows[k].userId in memberIds
      invariant Memberships.IsMember(members.rows, chatId, creatorId)
      invariant forall j :: 0 <= j < i && users[j].id in memberIds ==> Memberships.IsMember(members.rows, chatId, users[j].id)
    {
      if users[i].id in memberIds {
        ghost var before := members.rows;
        var m := members.AddMember(chatId, users[i].id);
        KeepsMembers(before, members.rows, chatId);
      }
      i := i + 1;
    }
  }

  /** Appending rows keeps every membership of the chat. */
  lemma KeepsMembers(before: seq<Memberships.Membership>, after: seq<Memberships.Membership>, chatId: nat)
    requires |before| <= |after| && after[..|before|] == before
    ensures forall u :: Memberships.IsMember(before, chatId, u) ==> Memberships.IsMember(after, chatId, u)
  {
    forall u | Memberships.IsMember(before, chatId, u) ensures Memberships.IsMember(after, chatId, u) {
      var i :| 0 <= i < |before| && before[i].chatId == chatId && before[i].userId == u;
      assert after[i] == before[i];
    }
  }

  /** `edit`: past the guards, only a group chat may be edited. */
  function Edit(chats: seq<Chats.Chat>, rows: seq<Memberships.Membership>, me: Users.User, chatId: nat): (resp: Response)
    ensures Chats.IndexIn(chats, chatId).None? ==> resp == Status(NotFound)
    ensures resp == Status(Success) <==>
      exists i :: 0 <= i < |chats| && chats[i].id == chatId && Chats.IndexIn(chats, chatId) == Some(i)
                  && CanAccess(chats[i], rows, me.id) && chats[i].IsGroup()
  {
    match Chats.IndexIn(chats, chatId)
    case None => Status(NotFound)
    case Some(i) =>
      if !CanAccess(chats[i], rows, me.id) then NoAccess
      else if !chats[i].IsGroup() then Redirect(ChatPage(chatId), Alert("Only group chats can be edited"))
      else Status(Success)
  }

  /** `update`: past the guards, only a group chat is renamed, and only to a valid name. */
  method Update(chats: Chats.ChatTable, members: Memberships.MembershipTable, me: Users.User, chatId: nat,
                name: Option<string>)
    returns (resp: Response)
    requires chats.Valid()
    modifies chats
    ensures chats.Valid()
    ensures match old(chats.IndexOf(chatId))
      case None => resp == Status(NotFound) && chats.rows == old(chats.rows)
      case Some(i) =>
        var c := old(chats.rows)[i];
        if !CanAccess(c, members.rows, me.id) then resp == NoAccess && chats.rows == old(chats.rows)
        else if !c.IsGroup() then
          resp == Redirect(ChatPage(chatId), Alert("Only group chats can be edited")) && chats.rows == old(chats.rows)
        else if name.Some? && Chats.ChatErrors(c.chatType, name) != {} then
          resp == Status(Unprocessable) && chats.rows == old(chats.rows)
        else
          resp == Redirect(ChatPage(chatId), Notice("Chat updated successfully"))
          && chats.rows == if name.Some? then old(chats.rows)[i := c.(name := name)] else old(chats.rows)
  {
    var k := chats.IndexOf(chatId);
    if k.None? {
      return Status(NotFound);
    }
    var c := chats.rows[k.value];
    if !CanAccess(c, members.rows, me.id) {
      return NoAccess;
    }
    if !c.IsGroup() {
      return Redirect(ChatPage(chatId), Alert("Only group chats can be edited"));
    }
    var errs := chats.Rename(chatId, name);
    if errs != {} {
      return Status(Unprocessable);
    }
    return Redirect(ChatPage(chatId), Notice("Chat updated successfully"));
  }

  /**
   * `destroy`: past the guards, only the creator or an admin may delete. Deleting removes the
   * chat, its memberships and its messages, and with the messages their reactions and receipts;
   * replies elsewhere to a removed message lose their parent.
   */
  method Destroy(chats: Chats.ChatTable, members: Memberships.MembershipTable, messages: Messages.MessageTable,
                 reactions: Reactions.ReactionTable, receipts: Receipts.ReceiptTable, me: Users.User, chatId: nat)
    returns (resp: Response)
    requires chats.Valid() && members.Valid() && messages.Valid() && reactions.Valid() && receipts.Valid()
    modifies chats, members, messages, reactions, receipts
    ensures chats.Valid() && members.Valid() && messages.Valid() && reactions.Valid() && receipts.Valid()
    ensures match old(chats.IndexOf(chatId))
      case None =>
        resp == Status(NotFound) && chats.rows == old(chats.rows) && members.rows == old(members.rows)
        && messages.rows == old(messages.rows) && reactions.rows == old(reactions.rows) && receipts.rows == old(receipts.rows)
      case Some(i) =>
        var c := old(chats.rows)[i];
        if !CanAccess(c, old(members.rows), me.id) || !(c.createdBy == Some(me.id) || me.IsAdmin()) then
          resp == (if CanAccess(c, old(members.rows), me.id)
                   then Redirect(ChatsIndex(None), Alert("You don't have permission to delete this chat"))
                   else NoAccess)
          && chats.rows == old(chats.rows) && members.rows == old(members.rows)
          && messages.rows == old(messages.rows) && reactions.rows == old(reactions.rows) && receipts.rows == old(receipts.rows)
        else
          var gone := Messages.ChatMessageIds(old(messages.rows), chatId);
          resp == Redirect(ChatsIndex(None), Notice("Chat deleted successfully"))
          && chats.rows == old(chats.rows)[..i] + old(chats.rows)[i + 1..]
          && members.rows == Memberships.Without(old(members.rows), chatId, None)
          && messages.rows == Messages.Surviving(old(messages.rows), chatId, gone)
          && (forall x :: x in reactions.rows <==> x in old(reactions.rows) && x.messageId !in gone)
          && (forall x :: x in receipts.rows <==> x in old(receipts.rows) && x.messageId !in gone)
  {
    var k := chats.IndexOf(chatId);
    if k.None? {
      return Status(NotFound);
    }
    var c := chats.rows[k.value];
    if !CanAccess(c, members.rows, me.id) {
      return NoAccess;
    }
    if !(c.createdBy == Some(me.id) || me.IsAdmin()) {
      return Redirect(ChatsIndex(None), Alert("You don't have permission to delete this chat"));
    }
    var gone := DestroyChatData(members, messages, reactions, receipts, chatId);
    chats.Delete(chatId);
    return Redirect(ChatsIndex(None), Notice("Chat deleted successfully"));
  }

  /** The cascade of `destroy`: the chat's memberships and messages, and the messages' reactions and receipts. */
  method DestroyChatData(members: Memberships.MembershipTable, messages: Messages.MessageTable,
                         reactions: Reactions.ReactionTable, receipts: Receipts.ReceiptTable, chatId: nat)
    returns (gone: set<nat>)
    requires members.Valid() && messages.Valid() && reactions.Valid() && receipts.Valid()
    modifies members, messages, reactions, receipts
    ensures members.Valid() && messages.Valid() && reactions.Valid() && receipts.Valid()
    ensures gone == Messages.ChatMessageIds(old(messages.rows), chatId)
    ensures members.rows == Memberships.Without(old(members.rows), chatId, None)
    ensures messages.rows == Messages.Surviving(old(messages.rows), chatId, gone)
    ensures forall x :: x in reactions.rows <==> x in old(reactions.rows) && x.messageId !in gone
    ensures forall x :: x in receipts.rows <==> x in old(receipts.rows) && x.messageId !in gone
  {
    members.RemoveChat(chatId);
    gone := messages.DestroyChat(chatId);
    reactions.DestroyForMessages(gone);
    receipts.DestroyForMessages(gone);
  }

  /**
   * `add_member`: past the guards, only for group chats and an existing user, who then holds
   * exactly one membership of the chat.
   */
  method AddMember(chats: Chats.ChatTable, members: Memberships.MembershipTable, users: seq<Users.User>,
                   me: Users.User, chatId: nat, userId: nat)
    returns (resp: Response)
    requires members.Valid()
    modifies members
    ensures members.Valid()
    ensures match chats.IndexOf(chatId)
      case None => resp == Status(NotFound) && members.rows == old(members.rows)
      case Some(i) =>
        var c := chats.rows[i];
        if !CanAccess(c, old(members.rows), me.id) then resp == NoAccess && members.rows == old(members.rows)
        else if !c.IsGroup() then
          resp == Redirect(ChatPage(chatId), Alert("Cannot add members to this chat type")) && members.rows == old(members.rows)
        else match Users.FindById(users, userId)
          case None => resp == Redirect(ChatPage(chatId), Alert("User not found")) && members.rows == old(members.rows)
          case Some(u) =>
            resp == Redirect(ChatPage(chatId), Notice(Users.FullName(u.firstName, u.lastName) + " added to the chat"))
            && Memberships.CountFor(members.rows, chatId, userId) == 1
            && (members.rows == old(members.rows) || members.rows == old(members.rows) + [Memberships.Membership(chatId, userId, None, true)])
  {
    var k := chats.IndexOf(chatId);
    if k.None? {
      return Status(NotFound);
    }
    var c := chats.rows[k.value];
    if !CanAccess(c, members.rows, me.id) {
      return NoAccess;
    }
    if !c.IsGroup() {
      return Redirect(ChatPage(chatId), Alert("Cannot add members to this chat type"));
    }
    var u := Users.FindById(users, userId);
    if u.None? {
      return Redirect(ChatPage(chatId), Alert("User not found"));
    }
    var m := members.AddMember(chatId, u.value.id);
    return Redirect(ChatPage(chatId), Notice(Users.FullName(u.value.firstName, u.value.lastName) + " added to the chat"));
  }

  /**
   * `remove_member`: past the guards, only for group chats and an existing user; the creator
   * can only be removed by an admin.
   */
  method RemoveMember(chats: Chats.ChatTable, members: Memberships.MembershipTable, users: seq<Users.User>,
                      me: Users.User, chatId: nat, userId: nat)
    returns (resp: Response)
    requires members.Valid()
    modifies members
    ensures members.Valid()
    ensures match chats.IndexOf(chatId)
      case None => resp == Status(NotFound) && members.rows == old(members.rows)
      case Some(i) =>
        var c := chats.rows[i];
        if !CanAccess(c, old(members.rows), me.id) then resp == NoAccess && members.rows == old(members.rows)
        else if !c.IsGroup() then
          resp == Redirect(ChatPage(chatId), Alert("Cannot remove members from this chat type"))
          && members.rows == old(members.rows)
        else match Users.FindById(users, userId)
          case None => resp == Redirect(ChatPage(chatId), Alert("User not found")) && members.rows == old(members.rows)
          case Some(u) =>
            if c.createdBy == Some(u.id) && !me.IsAdmin() then
              resp == Redirect(ChatPage(chatId), Alert("Cannot remove the chat creator")) && members.rows == old(members.rows)
            else
              resp == Redirect(ChatPage(chatId), Notice(Users.FullName(u.firstName, u.lastName) + " removed from the chat"))
              && members.rows == Memberships.Without(old(members.rows), chatId, Some(userId))
  {
    var k := chats.IndexOf(chatId);
    if k.None? {
      return Status(NotFound);
    }
    var c := chats.rows[k.value];
    if !CanAccess(c, members.rows, me.id) {
      return NoAccess;
    }
    if !c.IsGroup() {
      return Redirect(ChatPage(chatId), Alert("Cannot remove members from this chat type"));
    }
    var u := Users.FindById(users, userId);
    if u.None? {
      return Redirect(ChatPage(chatId), Alert("User not found"));
    }
    if c.createdBy == Some(u.value.id) && !me.IsAdmin() {
      return Redirect(ChatPage(chatId), Alert("Cannot remove the chat creator"));
    }
    members.RemoveMember(chatId, u.value.id);
    return Redirect(ChatPage(chatId), Notice(Users.FullName(u.value.firstName, u.value.lastName) + " removed from the chat"));
  }

  /**
   * `leave`: no access guard; refused for a direct chat, otherwise the current user's
   * membership goes, the creator's included.
   */
  method Leave(chats: Chats.ChatTable, members: Memberships.MembershipTable, me: Users.User, chatId: nat)
    returns (resp: Response)
    requires members.Valid()
    modifies members
    ensures members.Valid()
    ensures match chats.IndexOf(chatId)
      case None => resp == Status(NotFound) && members.rows == old(members.rows)
      case Some(i) =>
        if chats.rows[i].IsDirect() then
          resp == Redirect(ChatPage(chatId), Alert("Cannot leave a direct message conversation"))
          && members.rows == old(members.rows)
        else
          resp == Redirect(ChatsIndex(None), Notice("You have left the chat"))
          && members.rows == Memberships.Without(old(members.rows), chatId, Some(me.id))
          && !Memberships.IsMember(members.rows, chatId, me.id)
  {
    var k := chats.IndexOf(chatId);
    if k.None? {
      return Status(NotFound);
    }
    if chats.rows[k.value].IsDirect() {
      return Redirect(ChatPage(chatId), Alert("Cannot leave a direct message conversation"));
    }
    members.RemoveMember(chatId, me.id);
    return Redirect(ChatsIndex(None), Notice("You have left the chat"));
  }
}
