/**
 * The "is typing" state a browser keeps per chat: an insertion-ordered map from user id to
 * the user's name and the time the entry's 5-second removal timer fires. Both the open
 * conversation and the sidebar follow the same rules, written here once as functions on the
 * map's entries in insertion order.
 */
module Typing {
  import opened Wrappers
  import opened Text
  import Seqs

  /** How long an entry lives without a fresh typing event, in milliseconds. */
  const Expiry: int := 5000

  /** One entry: who is typing, under which name, and when its removal timer fires. */
  datatype Typer = Typer(userId: nat, name: string, due: int)

  /** A map has each key once. */
  predicate UniqueUsers(s: seq<Typer>) {
    forall i, j :: 0 <= i < j < |s| ==> s[i].userId != s[j].userId
  }

  /** The position of `userId`'s entry. */
  function IndexOfUser(s: seq<Typer>, userId: nat): (r: Option<nat>)
    ensures r.Some? ==> r.value < |s| && s[r.value].userId == userId
    ensures r.None? <==> forall i :: 0 <= i < |s| ==> s[i].userId != userId
  {
    if s == [] then None
    else if s[|s| - 1].userId == userId then Some(|s| - 1)
    else IndexOfUser(s[..|s| - 1], userId)
  }

  /** `typingUsers.get(userId)`. */
  function Entry(s: seq<Typer>, userId: nat): Option<Typer> {
    match IndexOfUser(s, userId)
    case None => None
    case Some(i) => Some(s[i])
  }

  /** In a map, the entry found for a key is the one at that key's position. */
  lemma EntryAt(s: seq<Typer>, i: nat)
    requires UniqueUsers(s) && i < |s|
    ensures Entry(s, s[i].userId) == Some(s[i])
  {
    var k := IndexOfUser(s, s[i].userId);
    assert k.Some?;
    assert k.value == i;
  }

  /** `typingUsers.delete(userId)`: the other entries stay, in their order. */
  function Removed(s: seq<Typer>, userId: nat): (r: seq<Typer>)
    ensures forall t :: t in r <==> t in s && t.userId != userId
  {
    Seqs.Filter(s, (t: Typer) => t.userId != userId)
  }

  /** Every removal timer due by `now` has fired: those entries are gone. */
  function Expired(s: seq<Typer>, now: int): (r: seq<Typer>)
    ensures forall t :: t in r <==> t in s && t.due > now
  {
    Seqs.Filter(s, (t: Typer) => t.due > now)
  }

  /**
   * `handleTypingIndicator`: the viewer's own events are ignored; `is_typing` true sets the
   * sender's entry with a timer due `now + 5000` (an existing entry keeps its place in the
   * map, as `Map.set` does), and false deletes it.
   */
  function Received(s: seq<Typer>, me: nat, userId: nat, name: string, isTyping: bool, now: int): (r: seq<Typer>)
  {
    if userId == me then s
    else if isTyping then
      match IndexOfUser(s, userId)
      case Some(i) => s[i := Typer(userId, name, now + Expiry)]
      case None => s + [Typer(userId, name, now + Expiry)]
    else Removed(s, userId)
  }

  /** Selecting entries keeps a map a map. */
  lemma FilterKeepsUnique(s: seq<Typer>, p: Typer -> bool)
    requires UniqueUsers(s)
    ensures UniqueUsers(Seqs.Filter(s, p))
  {
    Seqs.FilterPairwise(s, p, (a: Typer, b: Typer) => a.userId != b.userId);
  }

  /** An entry survives a selection exactly when it satisfies the predicate. */
  lemma EntryOfFilter(s: seq<Typer>, p: Typer -> bool, u: nat)
    requires UniqueUsers(s)
    ensures Entry(Seqs.Filter(s, p), u) == if Entry(s, u).Some? && p(Entry(s, u).value) then Entry(s, u) else None
  {
    var r := Seqs.Filter(s, p);
    FilterKeepsUnique(s, p);
    match IndexOfUser(s, u)
    case None =>
      assert forall i :: 0 <= i < |r| ==> r[i] in s;
    case Some(i) =>
      if p(s[i]) {
        assert s[i] in r;
        var j :| 0 <= j < |r| && r[j] == s[i];
        EntryAt(r, j);
      } else {
        forall j | 0 <= j < |r| ensures r[j].userId != u {
          assert r[j] in s;
          var k :| 0 <= k < |s| && s[k] == r[j];
          assert k != i;
        }
      }
  }

  /**
   * What a received event does to the map, key by key: the sender's entry is set (true) or
   * gone (false), every other user's entry is untouched, and the viewer's events change
   * nothing. The map stays a map.
   */
  lemma ReceivedEntries(s: seq<Typer>, me: nat, userId: nat, name: string, isTyping: bool, now: int, v: nat)
    requires UniqueUsers(s)
    ensures UniqueUsers(Received(s, me, userId, name, isTyping, now))
    ensures Entry(Received(s, me, userId, name, isTyping, now), v) ==
      if v != userId || userId == me then Entry(s, v)
      else if isTyping then Some(Typer(userId, name, now + Expiry))
      else None
  {
    var r := Received(s, me, userId, name, isTyping, now);
    if userId == me {
    } else if isTyping {
      match IndexOfUser(s, userId)
      case Some(i) =>
        assert UniqueUsers(r);
        EntryAt(r, i);
        if v != userId {
          match IndexOfUser(s, v)
          case Some(k) =>
            EntryAt(s, k);
            EntryAt(r, k);
          case None =>
            assert forall j :: 0 <= j < |r| ==> r[j].userId != v;
        }
      case None =>
        assert UniqueUsers(r);
        EntryAt(r, |s|);
        if v != userId {
          match IndexOfUser(s, v)
          case Some(k) =>
            EntryAt(s, k);
            EntryAt(r, k);
          case None =>
            assert forall j :: 0 <= j < |r| ==> r[j].userId != v;
        }
    } else {
      FilterKeepsUnique(s, (t: Typer) => t.userId != userId);
      EntryOfFilter(s, (t: Typer) => t.userId != userId, v);
    }
  }

  /**
   * A typing event keeps the sender listed until its timer is due and no longer: timers due
   * earlier leave the entry, the timer at `now + 5000` removes it.
   */
  lemma ExpiryWindow(s: seq<Typer>, me: nat, userId: nat, name: string, now: int, later: int)
    requires UniqueUsers(s) && userId != me
    ensures var r := Received(s, me, userId, name, true, now);
      (later < now + Expiry ==> Entry(Expired(r, later), userId) == Some(Typer(userId, name, now + Expiry)))
      && (later >= now + Expiry ==> Entry(Expired(r, later), userId).None?)
  {
    var r := Received(s, me, userId, name, true, now);
    ReceivedEntries(s, me, userId, name, true, now, userId);
    EntryOfFilter(r, (t: Typer) => t.due > later, userId);
  }

  /** An expiry pass keeps a map a map. */
  lemma ExpiredKeepsUnique(s: seq<Typer>, now: int)
    requires UniqueUsers(s)
    ensures UniqueUsers(Expired(s, now))
  {
    FilterKeepsUnique(s, (t: Typer) => t.due > now);
  }

  /** The names in the map's order (`Array.from(typingUsers.values()).map(u => u.name)`). */
  function Names(s: seq<Typer>): (r: seq<string>)
    ensures |r| == |s| && forall i :: 0 <= i < |s| ==> r[i] == s[i].name
  {
    seq(|s|, i requires 0 <= i < |s| => s[i].name)
  }

  /**
   * The indicator's text: hidden (`None`) when nobody is typing, then one name, two names,
   * or the number of people.
   */
  function IndicatorText(names: seq<string>): (r: Option<string>)
    ensures r.None? <==> names == []
    ensures |names| == 1 ==> r == Some(names[0] + " is typing...")
    ensures |names| == 2 ==> r == Some(names[0] + " and " + names[1] + " are typing...")
    ensures |names| >= 3 ==> r == Some(NatToString(|names|) + " people are typing...")
  {
    if |names| == 0 then None
    else if |names| == 1 then Some(names[0] + " is typing...")
    else if |names| == 2 then Some(names[0] + " and " + names[1] + " are typing...")
    else Some(NatToString(|names|) + " people are typing...")
  }

  /** With three or more typers, the number the indicator shows reads back as the number of typers. */
  lemma IndicatorCountReadable(names: seq<string>)
    requires |names| >= 3
    ensures ParseInt(IndicatorText(names).value) == Some(|names|)
  {
    ParseIntOfNatToString(|names|, " people are typing...");
  }
}
