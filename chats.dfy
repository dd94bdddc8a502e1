/**
 * Conversations: the three chat types and their validations, the display name, the
 * chats table, and `find_or_create_direct`, the lookup-or-insert of a one-to-one chat.
 */
module Chats {
  import opened Wrappers
  import opened Text
  import Seqs
  import Users
  import Memberships
  import Messages

  const ChatTypes: seq<string> := ["direct", "group", "public"]
  const MaxNameLength: nat := 100

  /** A chat row; a nil name is `None`, and so is a missing creator. */
  datatype Chat = Chat(id: nat, chatType: string, name: Option<string>, createdBy: Option<nat>)
  {
    predicate IsDirect() { chatType == "direct" }
    predicate IsGroup() { chatType == "group" }
    predicate IsPublic() { chatType == "public" }
  }

  /**
   * The attributes that fail validation: the type must be one of the three, group and public
   * chats need a non-blank name, and a name is never longer than 100 characters.
   */
  function ChatErrors(chatType: string, name: Option<string>): (errs: set<string>)
    ensures errs <= {"chat_type", "name"}
    ensures "chat_type" in errs <==> chatType !in ChatTypes
    ensures "name" in errs <==>
      ((chatType == "group" || chatType == "public") && (name.None? || IsBlank(name.value)))
      || (name.Some? && |name.value| > MaxNameLength)
  {
    assert forall t | t in ChatTypes :: !IsBlank(t) by {
      assert !IsSpace('d') && !IsSpace('g') && !IsSpace('p');
      assert ChatTypes[0][0] == 'd' && ChatTypes[1][0] == 'g' && ChatTypes[2][0] == 'p';
    }
    (if IsBlank(chatType) || chatType !in ChatTypes then {"chat_type"} else {})
    + (if ((chatType == "group" || chatType == "public") && (name.None? || IsBlank(name.value)))
          || (name.Some? && |name.value| > MaxNameLength)
       then {"name"} else {})
  }

  /**
   * `other_member`: among the chat's members, the one with the smallest id that is not the
   * viewer (the relation's default primary-key order).
   */
  function OtherMember(members: seq<Users.User>, viewer: nat): (r: Option<Users.User>)
    ensures r.Some? ==> r.value in members && r.value.id != viewer
                        && forall u | u in members && u.id != viewer :: r.value.id <= u.id
    ensures r.None? ==> forall u | u in members :: u.id == viewer
  {
    if members == [] then None
    else
      var init := members[..|members| - 1];
      var last := members[|members| - 1];
      assert members == init + [last];
      var rest := OtherMember(init, viewer);
      if last.id == viewer then rest
      else match rest
        case None => Some(last)
        case Some(u) => if last.id < u.id then Some(last) else Some(u)
  }

  /**
   * `display_name`: for a direct chat seen by a user, the other member's full name or
   * "Unknown User" when there is none; otherwise the name, or "Unnamed Chat" when it is nil.
   */
  function DisplayName(c: Chat, viewer: Option<nat>, members: seq<Users.User>): (r: string)
    ensures c.IsDirect() && viewer.Some? ==>
      (r == "Unknown User" && forall u | u in members :: u.id == viewer.value)
      || exists u | u in members && u.id != viewer.value ::
           r == Users.FullName(u.firstName, u.lastName)
           && forall v | v in members && v.id != viewer.value :: u.id <= v.id
    ensures !(c.IsDirect() && viewer.Some?) ==> r == if c.name.Some? then c.name.value else "Unnamed Chat"
  {
    if c.IsDirect() && viewer.Some? then
      match OtherMember(members, viewer.value)
      case None => "Unknown User"
      case Some(u) => Users.FullName(u.firstName, u.lastName)
    else c.name.GetOr("Unnamed Chat")
  }

  /** `members`: the users holding a membership of the chat. */
  function MembersOf(users: seq<Users.User>, rows: seq<Memberships.Membership>, chatId: nat): (r: seq<Users.User>)
    ensures forall u :: u in r <==> u in users && Memberships.IsMember(rows, chatId, u.id)
  {
    Seqs.Filter(users, (u: Users.User) => Memberships.IsMember(rows, chatId, u.id))
  }

  /** `last_message`: a newest message of the chat, deleted ones included. */
  function LastMessage(msgs: seq<Messages.Message>, chatId: nat): (r: Option<Messages.Message>)
    ensures r.Some? ==> r.value in msgs && r.value.chatId == chatId
                        && forall m | m in msgs && m.chatId == chatId :: m.createdAt <= r.value.createdAt
    ensures r.None? <==> forall m | m in msgs :: m.chatId != chatId
  {
    if msgs == [] then None
    else
      var init := msgs[..|msgs| - 1];
      var last := msgs[|msgs| - 1];
      assert msgs == init + [last];
      var rest := LastMessage(init, chatId);
      if last.chatId != chatId then rest
      else match rest
        case None => Some(last)
        case Some(m) => if m.createdAt > last.createdAt then Some(m) else Some(last)
  }

  /** Ids only grow along the table, so its first row with a property has the smallest id. */
  predicate IdsAscending(a: Chat, b: Chat) {
    a.id < b.id
  }

  ghost predicate RowsValid(rows: seq<Chat>, nextId: nat) {
    (forall i :: 0 <= i < |rows| ==> rows[i].id < nextId && ChatErrors(rows[i].chatType, rows[i].name) == {})
    && Seqs.Pairwise(rows, IdsAscending)
  }

  /** The chats table. */
  class ChatTable {
    var rows: seq<Chat>
    var nextId: nat

    ghost predicate Valid()
      reads this
    {
      RowsValid(rows, nextId)
    }

    constructor ()
      ensures Valid() && rows == []
    {
      rows := [];
      nextId := 1;
    }

    function IndexOf(id: nat): (r: Option<nat>)
      reads this
      ensures r.Some? ==> r.value < |rows| && rows[r.value].id == id
      ensures r.None? ==> forall i :: 0 <= i < |rows| ==> rows[i].id != id
    {
      IndexIn(rows, id)
    }

    /**
     * `create`: a nil type becomes "direct" before validation; the chat is stored only if it
     * then passes validation.
     */
    method Create(chatType: Option<string>, name: Option<string>, createdBy: Option<nat>)
      returns (r: Result<Chat, set<string>>)
      requires Valid()
      modifies this
      ensures Valid()
      ensures var t := chatType.GetOr("direct");
        if ChatErrors(t, name) == {} then
          r == Ok(Chat(old(nextId), t, name, createdBy)) && rows == old(rows) + [r.value] && nextId > r.value.id
        else
          r == Err(ChatErrors(t, name)) && rows == old(rows)
    {
      var t := chatType.GetOr("direct");
      var errs := ChatErrors(t, name);
      if errs != {} {
        return Err(errs);
      }
      var c := Chat(nextId, t, name, createdBy);
      Seqs.AppendPairwise(rows, c, IdsAscending);
      rows := rows + [c];
      nextId := nextId + 1;
      return Ok(c);
    }

    /**
     * `update` with the permitted `name`: `None` leaves it as it is; a new name is stored only
     * if the chat still passes validation, otherwise the errors come back.
     */
    method Rename(id: nat, name: Option<string>) returns (errs: set<string>)
      requires Valid()
      modifies this
      ensures Valid() && nextId == old(nextId)
      ensures match old(IndexOf(id))
        case None => errs == {} && rows == old(rows)
        case Some(i) =>
          var c := old(rows)[i];
          if name.None? then errs == {} && rows == old(rows)
          else
            errs == ChatErrors(c.chatType, name)
            && rows == if errs == {} then old(rows)[i := c.(name := name)] else old(rows)
    {
      var k := IndexOf(id);
      if k.None? || name.None? {
        return {};
      }
      var i := k.value;
      errs := ChatErrors(rows[i].chatType, name);
      if errs == {} {
        var r := rows[i := rows[i].(name := name)];
        assert forall a, b :: 0 <= a < b < |r| ==> r[a].id == rows[a].id && r[b].id == rows[b].id;
        rows := r;
      }
    }

    /** Deletes the chat row itself; its memberships and messages are removed by the caller. */
    method Delete(id: nat)
      requires Valid()
      modifies this
      ensures Valid() && nextId == old(nextId)
      ensures match old(IndexOf(id))
        case None => rows == old(rows)
        case Some(i) => rows == old(rows)[..i] + old(rows)[i + 1..]
    {
      var k := IndexOf(id);
      if k.Some? {
        var i := k.value;
        Seqs.RemoveAtPairwise(rows, i, IdsAscending);
        var r := rows[..i] + rows[i + 1..];
        assert forall a :: 0 <= a < |r| ==> r[a] in rows;
        rows := r;
      }
    }
  }

  function IndexIn(rows: seq<Chat>, id: nat): (r: Option<nat>)
    ensures r.Some? ==> r.value < |rows| && rows[r.value].id == id
    ensures r.None? ==> forall i :: 0 <= i < |rows| ==> rows[i].id != id
  {
    if rows == [] then None
    else if rows[|rows| - 1].id == id then Some(|rows| - 1)
    else IndexIn(rows[..|rows| - 1], id)
  }

  /**
   * The chats `find_or_create_direct` looks for: direct, with memberships of both users, which
   * the `COUNT(DISTINCT user_id) = 2` condition only allows when the users differ.
   */
  predicate DirectBetween(c: Chat, rows: seq<Memberships.Membership>, u1: nat, u2: nat) {
    c.IsDirect() && u1 != u2 && Memberships.IsMember(rows, c.id, u1) && Memberships.IsMember(rows, c.id, u2)
  }

  /** The first such chat, which is the one with the smallest id. */
  function FirstDirect(chats: seq<Chat>, rows: seq<Memberships.Membership>, u1: nat, u2: nat): (r: Option<nat>)
    ensures r.Some? ==> r.value < |chats| && DirectBetween(chats[r.value], rows, u1, u2)
                        && forall j :: 0 <= j < r.value ==> !DirectBetween(chats[j], rows, u1, u2)
    ensures r.None? ==> forall j :: 0 <= j < |chats| ==> !DirectBetween(chats[j], rows, u1, u2)
  {
    if chats == [] then None
    else if DirectBetween(chats[0], rows, u1, u2) then Some(0)
    else
      assert forall j :: 0 <= j < |chats| - 1 ==> chats[1..][j] == chats[j + 1];
      match FirstDirect(chats[1..], rows, u1, u2)
      case None => None
      case Some(i) => Some(i + 1)
  }

  /**
   * `find_or_create_direct`: the first direct chat of the two users if there is one, with
   * nothing changed; otherwise a new unnamed direct chat holding both users. Either way, for
   * two different users the next lookup finds the chat returned, so repeated calls agree;
   * for one user twice, a new chat is created on every call.
   */
  method FindOrCreateDirect(chats: ChatTable, members: Memberships.MembershipTable, u1: nat, u2: nat)
    returns (c: Chat)
    requires chats.Valid() && members.Valid()
    modifies chats, members
    ensures chats.Valid() && members.Valid()
    ensures match old(FirstDirect(chats.rows, members.rows, u1, u2))
      case Some(i) =>
        c == old(chats.rows)[i] && chats.rows == old(chats.rows) && members.rows == old(members.rows)
      case None =>
        c == Chat(old(chats.nextId), "direct", None, None) && chats.rows == old(chats.rows) + [c]
        && Memberships.IsMember(members.rows, c.id, u1) && Memberships.IsMember(members.rows, c.id, u2)
        && |old(members.rows)| <= |members.rows| && members.rows[..|old(members.rows)|] == old(members.rows)
        && forall k :: |old(members.rows)| <= k < |members.rows| ==> members.rows[k].chatId == c.id
    ensures u1 != u2 ==>
      var found := FirstDirect(chats.rows, members.rows, u1, u2);
      found.Some? && chats.rows[found.value] == c
    ensures u1 == u2 ==> chats.rows == old(chats.rows) + [c]
  {
    var found := FirstDirect(chats.rows, members.rows, u1, u2);
    if found.Some? {
      return chats.rows[found.value];
    }
    ghost var chats0 := chats.rows;
    ghost var rows0 := members.rows;
    c := CreateDirect(chats, members, u1, u2);
    if u1 != u2 {
      NewDirectIsFirst(chats0, c, rows0, members.rows, u1, u2);
    }
  }

  /** The create half of `find_or_create_direct`: a new unnamed direct chat, then both memberships. */
  method CreateDirect(chats: ChatTable, members: Memberships.MembershipTable, u1: nat, u2: nat)
    returns (c: Chat)
    requires chats.Valid() && members.Valid()
    modifies chats, members
    ensures chats.Valid() && members.Valid()
    ensures c == Chat(old(chats.nextId), "direct", None, None) && chats.rows == old(chats.rows) + [c]
    ensures forall j :: 0 <= j < |old(chats.rows)| ==> old(chats.rows)[j].id < c.id
    ensures Memberships.IsMember(members.rows, c.id, u1) && Memberships.IsMember(members.rows, c.id, u2)
    ensures |old(members.rows)| <= |members.rows| && members.rows[..|old(members.rows)|] == old(members.rows)
    ensures forall k :: |old(members.rows)| <= k < |members.rows| ==> members.rows[k].chatId == c.id
  {
    var created := chats.Create(Some("direct"), None, None);
    c := created.value;
    ghost var rows0 := members.rows;
    var m1 := members.AddMember(c.id, u1);
    ghost var rows1 := members.rows;
    GrowsBy(rows0, rows1, m1, c.id);
    var m2 := members.AddMember(c.id, u2);
    GrowsBy(rows1, members.rows, m2, c.id);
    GrowsTwice(rows0, rows1, members.rows, c.id, u1);
  }

  /** `add_member` leaves the rows as they were or appends its membership of the chat. */
  lemma GrowsBy(before: seq<Memberships.Membership>, after: seq<Memberships.Membership>, m: Memberships.Membership, chatId: nat)
    requires after == before || after == before + [m]
    requires m.chatId == chatId
    ensures |before| <= |after| && after[..|before|] == before
    ensures forall k :: |before| <= k < |after| ==> after[k].chatId == chatId
  {
  }

  /** Two such steps in a row keep the older rows, add rows of the chat only, and keep a membership. */
  lemma GrowsTwice(r0: seq<Memberships.Membership>, r1: seq<Memberships.Membership>, r2: seq<Memberships.Membership>,
                   chatId: nat, u: nat)
    requires |r0| <= |r1| && r1[..|r0|] == r0 && forall k :: |r0| <= k < |r1| ==> r1[k].chatId == chatId
    requires |r1| <= |r2| && r2[..|r1|] == r1 && forall k :: |r1| <= k < |r2| ==> r2[k].chatId == chatId
    requires Memberships.IsMember(r1, chatId, u)
    ensures |r0| <= |r2| && r2[..|r0|] == r0 && forall k :: |r0| <= k < |r2| ==> r2[k].chatId == chatId
    ensures Memberships.IsMember(r2, chatId, u)
  {
    assert r2[..|r1|][..|r0|] == r0;
    forall k | |r0| <= k < |r2| ensures r2[k].chatId == chatId {
      if k < |r1| {
        assert r2[k] == r1[k];
      }
    }
    var i :| 0 <= i < |r1| && r1[i].chatId == chatId && r1[i].userId == u;
    assert r2[i] == r1[i];
  }

  /**
   * A direct chat created when the lookup found none, and given the memberships of both users,
   * is what the lookup finds from then on: the new rows belong to it alone, and every older
   * chat has a smaller id.
   */
  lemma NewDirectIsFirst(chats0: seq<Chat>, c: Chat, rows0: seq<Memberships.Membership>,
                         rows: seq<Memberships.Membership>, u1: nat, u2: nat)
    requires forall j :: 0 <= j < |chats0| ==> chats0[j].id < c.id
    requires forall j :: 0 <= j < |chats0| ==> !DirectBetween(chats0[j], rows0, u1, u2)
    requires |rows0| <= |rows| && rows[..|rows0|] == rows0
    requires forall k :: |rows0| <= k < |rows| ==> rows[k].chatId == c.id
    requires DirectBetween(c, rows, u1, u2)
    ensures FirstDirect(chats0 + [c], rows, u1, u2) == Some(|chats0|)
  {
    var all := chats0 + [c];
    forall j | 0 <= j < |chats0| ensures !DirectBetween(all[j], rows, u1, u2) {
      assert all[j] == chats0[j];
      Memberships.IsMemberUnaffected(rows0, rows, chats0[j].id, u1);
      Memberships.IsMemberUnaffected(rows0, rows, chats0[j].id, u2);
    }
    assert all[|chats0|] == c;
  }
}
