/**
 * The @mention autocomplete: up to five members of the chat, other than the asker, whose
 * first name starts with the typed query, compared in lower case.
 */
module MentionsController {
  import opened Wrappers
  import opened Text
  import Seqs
  import Users
  import Memberships
  import Chats
  import ChatsController
  import Web

  const Limit: nat := 5

  /** One suggestion; the avatar URL is left out. */
  datatype MemberJson = MemberJson(id: nat, firstName: string, fullName: string, initials: string)

  function MemberToJson(u: Users.User): (j: MemberJson)
    ensures j.id == u.id && j.firstName == u.firstName
  {
    MemberJson(u.id, u.firstName, Users.FullName(u.firstName, u.lastName), Users.Initials(u.firstName, u.lastName))
  }

  /**
   * Whether `u` is offered for the stripped query `query`: a member of the chat, not the asker,
   * and, when the query is not empty, `LOWER(first_name) LIKE 'query%'` with the query
   * lowercased.
   */
  predicate Suggestible(u: Users.User, rows: seq<Memberships.Membership>, chatId: nat, me: nat, query: string) {
    Memberships.IsMember(rows, chatId, u.id) && u.id != me
    && (query != "" ==> StartsWith(Downcase(u.firstName), Downcase(query)))
  }

  /**
   * The users `index` returns, in table order: at most five suggestible users, every
   * suggestible user when there are fewer than five, and nobody else.
   */
  function Suggestions(users: seq<Users.User>, rows: seq<Memberships.Membership>, chatId: nat, me: nat,
                       rawQuery: string): (r: seq<Users.User>)
    ensures |r| <= Limit
    ensures forall u | u in r :: u in users && Suggestible(u, rows, chatId, me, Strip(rawQuery))
    ensures |r| < Limit ==> forall u | u in users && Suggestible(u, rows, chatId, me, Strip(rawQuery)) :: u in r
    ensures forall u | u in r :: u.id != me
  {
    var query := Strip(rawQuery);
    var all := Seqs.Filter(users, (u: Users.User) => Suggestible(u, rows, chatId, me, query));
    assert forall u :: u in all <==> u in users && Suggestible(u, rows, chatId, me, query);
    if |all| <= Limit then all
    else
      var r := all[..Limit];
      assert forall u | u in r :: u in all;
      r
  }

  /**
   * `index`: a missing chat is a 404 and a chat the user may not see a 403; otherwise the
   * suggestions as JSON, in the same order.
   */
  function Index(chats: seq<Chats.Chat>, rows: seq<Memberships.Membership>, users: seq<Users.User>,
                 me: Users.User, chatId: nat, rawQuery: string): (r: Result<seq<MemberJson>, nat>)
    ensures Chats.IndexIn(chats, chatId).None? ==> r == Err(Web.NotFound)
    ensures r.Err? ==> r.error in {Web.NotFound, Web.Forbidden}
    ensures r == Err(Web.Forbidden) <==>
      exists i :: 0 <= i < |chats| && Chats.IndexIn(chats, chatId) == Some(i)
                  && !ChatsController.CanAccess(chats[i], rows, me.id)
    ensures r.Ok? ==>
      var s := Suggestions(users, rows, chatId, me.id, rawQuery);
      |r.value| == |s| && forall i :: 0 <= i < |s| ==> r.value[i].id == s[i].id && r.value[i].firstName == s[i].firstName
  {
    match Chats.IndexIn(chats, chatId)
    case None => Err(Web.NotFound)
    case Some(i) =>
      if !ChatsController.CanAccess(chats[i], rows, me.id) then Err(Web.Forbidden)
      else
        var s := Suggestions(users, rows, chatId, me.id, rawQuery);
        Ok(seq(|s|, k requires 0 <= k < |s| => MemberToJson(s[k])))
  }

  /** The asker is never offered, whatever the query. */
  lemma NeverSelf(chats: seq<Chats.Chat>, rows: seq<Memberships.Membership>, users: seq<Users.User>,
                  me: Users.User, chatId: nat, rawQuery: string)
    ensures var r := Index(chats, rows, users, me, chatId, rawQuery);
      r.Ok? ==> forall j | j in r.value :: j.id != me.id
  {
    var r := Index(chats, rows, users, me, chatId, rawQuery);
    if r.Ok? {
      var s := Suggestions(users, rows, chatId, me.id, rawQuery);
      forall j | j in r.value ensures j.id != me.id {
        var k :| 0 <= k < |r.value| && r.value[k] == j;
        assert s[k] in s;
      }
    }
  }

  /** A blank query offers the chat's other members, up to five, whatever their names. */
  lemma BlankQueryOffersMembers(users: seq<Users.User>, rows: seq<Memberships.Membership>, chatId: nat, me: nat,
                                rawQuery: string, u: Users.User)
    requires Strip(rawQuery) == ""
    requires u in users && Memberships.IsMember(rows, chatId, u.id) && u.id != me
    requires |Suggestions(users, rows, chatId, me, rawQuery)| < Limit
    ensures u in Suggestions(users, rows, chatId, me, rawQuery)
  {
    assert Suggestible(u, rows, chatId, me, Strip(rawQuery));
  }
}
