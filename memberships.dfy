/**
 * Chat memberships: the (chat, user) join table with its read cursor (`last_read_at`) and
 * notification switch, and the unread rule that both `Chat#unread_count_for` and
 * `ChatMembership#unread_count` follow.
 */
module Memberships {
  import opened Wrappers
  import Messages

  /** A membership row; `lastReadAt` is the read cursor, `None` until the chat is first read. */
  datatype Membership = Membership(chatId: nat, userId: nat, lastReadAt: Option<int>, notificationsEnabled: bool)

  /** A message counts as unread: in the chat, by someone else, and newer than the cursor if there is one. */
  predicate Unread(m: Messages.Message, chatId: nat, userId: nat, cursor: Option<int>) {
    m.chatId == chatId && m.userId != userId && (cursor.None? || m.createdAt > cursor.value)
  }

  /** The number of unread messages of `msgs` for the user with this cursor. */
  function UnreadCount(msgs: seq<Messages.Message>, chatId: nat, userId: nat, cursor: Option<int>): (n: nat)
    ensures n <= |msgs|
  {
    if msgs == [] then 0
    else UnreadCount(msgs[..|msgs| - 1], chatId, userId, cursor)
         + (if Unread(msgs[|msgs| - 1], chatId, userId, cursor) then 1 else 0)
  }

  /** `unread_messages?`: always true before the first read, otherwise some unread message exists. */
  predicate HasUnread(msgs: seq<Messages.Message>, chatId: nat, userId: nat, cursor: Option<int>) {
    cursor.None? || exists i :: 0 <= i < |msgs| && Unread(msgs[i], chatId, userId, cursor)
  }

  /** With a cursor, `unread_messages?` holds exactly when `unread_count` is positive. */
  lemma {:induction false} HasUnreadIffCount(msgs: seq<Messages.Message>, chatId: nat, userId: nat, cursor: Option<int>)
    requires cursor.Some?
    ensures HasUnread(msgs, chatId, userId, cursor) <==> UnreadCount(msgs, chatId, userId, cursor) > 0
  {
    if msgs != [] {
      var init := msgs[..|msgs| - 1];
      HasUnreadIffCount(init, chatId, userId, cursor);
      assert forall i :: 0 <= i < |init| ==> init[i] == msgs[i];
    }
  }

  /** Without a cursor the answer is yes even for a chat with no messages at all. */
  lemma NoCursorAlwaysUnread(chatId: nat, userId: nat)
    ensures HasUnread([], chatId, userId, None) && UnreadCount([], chatId, userId, None) == 0
  {
  }

  /** A user's own messages never count as unread for that user. */
  lemma OwnMessageNeverCounts(msgs: seq<Messages.Message>, m: Messages.Message, userId: nat, cursor: Option<int>)
    requires m.userId == userId
    ensures UnreadCount(msgs + [m], m.chatId, userId, cursor) == UnreadCount(msgs, m.chatId, userId, cursor)
  {
    assert (msgs + [m])[..|msgs|] == msgs;
  }

  /** Moving the cursor to a time no message is newer than leaves nothing unread. */
  lemma {:induction false} ReadUpToNow(msgs: seq<Messages.Message>, chatId: nat, userId: nat, now: int)
    requires forall i :: 0 <= i < |msgs| ==> msgs[i].createdAt <= now
    ensures UnreadCount(msgs, chatId, userId, Some(now)) == 0
  {
    if msgs != [] {
      ReadUpToNow(msgs[..|msgs| - 1], chatId, userId, now);
    }
  }

  /** A later cursor never shows more unread messages, and no cursor shows the most. */
  lemma {:induction false} LaterCursorFewerUnread(msgs: seq<Messages.Message>, chatId: nat, userId: nat, t1: int, t2: int)
    requires t1 <= t2
    ensures UnreadCount(msgs, chatId, userId, Some(t2)) <= UnreadCount(msgs, chatId, userId, Some(t1))
    ensures UnreadCount(msgs, chatId, userId, Some(t1)) <= UnreadCount(msgs, chatId, userId, None)
  {
    if msgs != [] {
      LaterCursorFewerUnread(msgs[..|msgs| - 1], chatId, userId, t1, t2);
    }
  }

  /** No two rows share a (chat, user) pair. */
  predicate UniqueKeys(rows: seq<Membership>) {
    forall i, j :: 0 <= i < j < |rows| ==> rows[i].chatId != rows[j].chatId || rows[i].userId != rows[j].userId
  }

  /** `member?` */
  predicate IsMember(rows: seq<Membership>, chatId: nat, userId: nat) {
    exists i :: 0 <= i < |rows| && rows[i].chatId == chatId && rows[i].userId == userId
  }

  /** The position of the (chat, user) membership, if any. */
  function Find(rows: seq<Membership>, chatId: nat, userId: nat): (r: Option<nat>)
    ensures r.Some? ==> r.value < |rows| && rows[r.value].chatId == chatId && rows[r.value].userId == userId
    ensures r.None? <==> !IsMember(rows, chatId, userId)
  {
    if rows == [] then None
    else if rows[|rows| - 1].chatId == chatId && rows[|rows| - 1].userId == userId then Some(|rows| - 1)
    else
      var r := Find(rows[..|rows| - 1], chatId, userId);
      assert r.Some? ==> rows[..|rows| - 1][r.value] == rows[r.value];
      r
  }

  /** How many memberships the user holds in the chat. */
  function CountFor(rows: seq<Membership>, chatId: nat, userId: nat): (n: nat)
    ensures n <= |rows|
  {
    if rows == [] then 0
    else CountFor(rows[..|rows| - 1], chatId, userId)
         + (if rows[|rows| - 1].chatId == chatId && rows[|rows| - 1].userId == userId then 1 else 0)
  }

  /** With unique keys a user holds exactly one membership of a chat it is in, none otherwise. */
  lemma {:induction false} CountForUnique(rows: seq<Membership>, chatId: nat, userId: nat)
    requires UniqueKeys(rows)
    ensures CountFor(rows, chatId, userId) == if IsMember(rows, chatId, userId) then 1 else 0
  {
    if rows != [] {
      var init := rows[..|rows| - 1];
      CountForUnique(init, chatId, userId);
      var last := rows[|rows| - 1];
      if last.chatId == chatId && last.userId == userId {
        forall i | 0 <= i < |init| ensures init[i].chatId != chatId || init[i].userId != userId {
          assert init[i] == rows[i];
        }
      } else {
        if IsMember(rows, chatId, userId) {
          var i :| 0 <= i < |rows| && rows[i].chatId == chatId && rows[i].userId == userId;
          assert i < |init| && init[i] == rows[i];
        }
      }
    }
  }

  /** Whether `m` is selected by a deletion of the chat's memberships (of one user, or all). */
  predicate Selected(m: Membership, chatId: nat, user: Option<nat>) {
    m.chatId == chatId && (user.None? || m.userId == user.value)
  }

  /**
   * The rows, in their order, without the chat's membership of `user` (or without all of the
   * chat's memberships when `user` is `None`).
   */
  function Without(rows: seq<Membership>, chatId: nat, user: Option<nat>): (r: seq<Membership>)
    ensures forall m :: m in r <==> m in rows && !Selected(m, chatId, user)
    ensures |r| <= |rows|
  {
    if rows == [] then []
    else
      var rest := Without(rows[..|rows| - 1], chatId, user);
      assert rows == rows[..|rows| - 1] + [rows[|rows| - 1]];
      if Selected(rows[|rows| - 1], chatId, user) then rest
      else rest + [rows[|rows| - 1]]
  }

  /** `with_notifications`: exactly the memberships that have notifications enabled, in order. */
  function WithNotifications(rows: seq<Membership>): (r: seq<Membership>)
    ensures forall m :: m in r <==> m in rows && m.notificationsEnabled
  {
    if rows == [] then []
    else
      var rest := WithNotifications(rows[..|rows| - 1]);
      assert rows == rows[..|rows| - 1] + [rows[|rows| - 1]];
      if rows[|rows| - 1].notificationsEnabled then rest + [rows[|rows| - 1]] else rest
  }

  /**
   * The users who want notifications for the chat: those holding a membership of it with
   * notifications enabled. This is the reading given to `should_receive_notification?(chat)`,
   * which the services call but `User` does not define.
   */
  function Receivers(rows: seq<Membership>, chatId: nat): (r: set<nat>)
    ensures forall u :: u in r <==>
      exists i :: 0 <= i < |rows| && rows[i].chatId == chatId && rows[i].userId == u && rows[i].notificationsEnabled
  {
    var enabled := WithNotifications(rows);
    var r := set m | m in enabled && m.chatId == chatId :: m.userId;
    assert forall u :: u in r ==>
      exists i :: 0 <= i < |rows| && rows[i].chatId == chatId && rows[i].userId == u && rows[i].notificationsEnabled;
    r
  }

  /** With one membership per user and chat, `toggle_notifications!` turns a member's notifications for the chat on or off. */
  lemma ToggleFlipsReceiver(rows: seq<Membership>, chatId: nat, userId: nat)
    requires UniqueKeys(rows) && IsMember(rows, chatId, userId)
    ensures var i := Find(rows, chatId, userId).value;
      var toggled := rows[i := rows[i].(notificationsEnabled := !rows[i].notificationsEnabled)];
      userId in Receivers(toggled, chatId) <==> userId !in Receivers(rows, chatId)
  {
    var i := Find(rows, chatId, userId).value;
    var toggled := rows[i := rows[i].(notificationsEnabled := !rows[i].notificationsEnabled)];
    if rows[i].notificationsEnabled {
      assert userId in Receivers(rows, chatId);
      assert userId !in Receivers(toggled, chatId);
    } else {
      assert userId !in Receivers(rows, chatId);
      assert toggled[i].notificationsEnabled;
      assert userId in Receivers(toggled, chatId);
    }
  }

  /** `Chat#unread_count_for`: 0 for a non-member, otherwise the unread rule with the member's cursor. */
  function UnreadCountFor(rows: seq<Membership>, msgs: seq<Messages.Message>, chatId: nat, userId: nat): (n: nat)
    ensures !IsMember(rows, chatId, userId) ==> n == 0
    ensures IsMember(rows, chatId, userId) ==>
      var m := rows[Find(rows, chatId, userId).value];
      n == UnreadCount(msgs, m.chatId, m.userId, m.lastReadAt)
  {
    match Find(rows, chatId, userId)
    case None => 0
    case Some(i) => UnreadCount(msgs, chatId, userId, rows[i].lastReadAt)
  }

  /** Rows appended for other chats leave a chat's memberships as they were. */
  lemma IsMemberUnaffected(before: seq<Membership>, after: seq<Membership>, chatId: nat, userId: nat)
    requires |before| <= |after| && after[..|before|] == before
    requires forall k :: |before| <= k < |after| ==> after[k].chatId != chatId
    ensures IsMember(after, chatId, userId) <==> IsMember(before, chatId, userId)
  {
    if IsMember(after, chatId, userId) {
      var i :| 0 <= i < |after| && after[i].chatId == chatId && after[i].userId == userId;
      assert i < |before| && before[i] == after[i];
    }
    if IsMember(before, chatId, userId) {
      var i :| 0 <= i < |before| && before[i].chatId == chatId && before[i].userId == userId;
      assert after[i] == before[i];
    }
  }

  /** The chat_memberships table. */
  class MembershipTable {
    var rows: seq<Membership>

    ghost predicate Valid()
      reads this
    {
      UniqueKeys(rows)
    }

    constructor ()
      ensures Valid() && rows == []
    {
      rows := [];
    }

    /**
     * `add_member` (find_or_create_by): an existing membership is returned untouched, otherwise
     * one is appended with no cursor and notifications on. Either way the user then holds
     * exactly one membership of the chat.
     */
    method AddMember(chatId: nat, userId: nat) returns (m: Membership)
      requires Valid()
      modifies this
      ensures Valid()
      ensures old(IsMember(rows, chatId, userId)) ==> rows == old(rows) && m in rows
      ensures !old(IsMember(rows, chatId, userId)) ==>
        m == Membership(chatId, userId, None, true) && rows == old(rows) + [m]
      ensures m.chatId == chatId && m.userId == userId
      ensures IsMember(rows, chatId, userId) && CountFor(rows, chatId, userId) == 1
    {
      var k := Find(rows, chatId, userId);
      if k.Some? {
        m := rows[k.value];
      } else {
        m := Membership(chatId, userId, None, true);
        rows := rows + [m];
        assert rows[|rows| - 1] == m;
      }
      CountForUnique(rows, chatId, userId);
    }

    /** `remove_member` (find_by then destroy): only that user's membership of the chat goes. */
    method RemoveMember(chatId: nat, userId: nat)
      requires Valid()
      modifies this
      ensures Valid()
      ensures rows == Without(old(rows), chatId, Some(userId))
      ensures !IsMember(rows, chatId, userId)
    {
      WithoutKeepsUnique(rows, chatId, Some(userId));
      rows := Without(rows, chatId, Some(userId));
      assert forall i :: 0 <= i < |rows| ==> rows[i] in rows;
    }

    /** `mark_as_read!`: the member's cursor moves to `now`; nothing happens for a non-member. */
    method MarkAsRead(chatId: nat, userId: nat, now: int)
      requires Valid()
      modifies this
      ensures Valid()
      ensures match Find(old(rows), chatId, userId)
        case None => rows == old(rows)
        case Some(i) => rows == old(rows)[i := old(rows)[i].(lastReadAt := Some(now))]
    {
      var k := Find(rows, chatId, userId);
      if k.Some? {
        rows := rows[k.value := rows[k.value].(lastReadAt := Some(now))];
      }
    }

    /** `toggle_notifications!`: negates the flag, so a second toggle restores it. */
    method ToggleNotifications(chatId: nat, userId: nat)
      requires Valid()
      modifies this
      ensures Valid()
      ensures match Find(old(rows), chatId, userId)
        case None => rows == old(rows)
        case Some(i) =>
          rows == old(rows)[i := old(rows)[i].(notificationsEnabled := !old(rows)[i].notificationsEnabled)]
    {
      var k := Find(rows, chatId, userId);
      if k.Some? {
        rows := rows[k.value := rows[k.value].(notificationsEnabled := !rows[k.value].notificationsEnabled)];
      }
    }

    /** Removes every membership of a chat (the chat's `dependent: :destroy`). */
    method RemoveChat(chatId: nat)
      requires Valid()
      modifies this
      ensures Valid()
      ensures rows == Without(old(rows), chatId, None)
      ensures forall m :: m in rows <==> m in old(rows) && m.chatId != chatId
    {
      WithoutKeepsUnique(rows, chatId, None);
      rows := Without(rows, chatId, None);
    }
  }

  lemma {:induction false} WithoutKeepsUnique(rows: seq<Membership>, chatId: nat, user: Option<nat>)
    requires UniqueKeys(rows)
    ensures UniqueKeys(Without(rows, chatId, user))
  {
    if rows != [] {
      var init := rows[..|rows| - 1];
      assert UniqueKeys(init);
      WithoutKeepsUnique(init, chatId, user);
      var last := rows[|rows| - 1];
      var rest := Without(init, chatId, user);
      if !Selected(last, chatId, user) {
        forall i | 0 <= i < |rest| ensures rest[i].chatId != last.chatId || rest[i].userId != last.userId {
          assert rest[i] in rest;
          var j :| 0 <= j < |init| && init[j] == rest[i];
          assert rows[j] == init[j];
        }
      }
    }
  }
}
