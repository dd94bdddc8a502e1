/**
 * Emoji reactions on messages: one row per (message, user, emoji), a non-blank emoji,
 * find-or-create / find-and-destroy, and the per-emoji counts of a message.
 */
module Reactions {
  import opened Wrappers
  import opened Text
  import Seqs

  /** The quick-access emojis shown first in the picker. */
  const QuickEmojis: seq<string> :=
    ["\U{1F44D}", "\U{2764}\U{FE0F}", "\U{1F602}", "\U{1F62E}", "\U{1F622}", "\U{1F389}"]

  datatype Reaction = Reaction(id: nat, messageId: nat, userId: nat, emoji: string)

  /** The (message, user, emoji) key a reaction is unique on. */
  datatype Key = Key(messageId: nat, userId: nat, emoji: string)

  function KeyOf(r: Reaction): Key {
    Key(r.messageId, r.userId, r.emoji)
  }

  /** Two stored reactions never share an id or a key. */
  predicate Distinct(a: Reaction, b: Reaction) {
    a.id != b.id && KeyOf(a) != KeyOf(b)
  }

  /** The table invariant: ids below `nextId`, every emoji present, ids and keys unique. */
  ghost predicate RowsValid(rows: seq<Reaction>, nextId: nat) {
    (forall i :: 0 <= i < |rows| ==> rows[i].id < nextId && !IsBlank(rows[i].emoji))
    && Seqs.Pairwise(rows, Distinct)
  }

  /** The keys present in the table. */
  ghost function Keys(rows: seq<Reaction>): set<Key> {
    set r | r in rows :: KeyOf(r)
  }

  /** `reacted_by?` */
  predicate ReactedBy(rows: seq<Reaction>, k: Key) {
    exists i :: 0 <= i < |rows| && KeyOf(rows[i]) == k
  }

  /** The position of the reaction with this key, if any. */
  function IndexOfKey(rows: seq<Reaction>, k: Key): (r: Option<nat>)
    ensures r.Some? ==> r.value < |rows| && KeyOf(rows[r.value]) == k
    ensures r.None? <==> !ReactedBy(rows, k)
  {
    if rows == [] then None
    else if KeyOf(rows[|rows| - 1]) == k then Some(|rows| - 1)
    else
      var r := IndexOfKey(rows[..|rows| - 1], k);
      assert r.Some? ==> rows[..|rows| - 1][r.value] == rows[r.value];
      r
  }

  /** The position of the reaction with this id, if any. */
  function IndexOfId(rows: seq<Reaction>, id: nat): (r: Option<nat>)
    ensures r.Some? ==> r.value < |rows| && rows[r.value].id == id
    ensures r.None? ==> forall i :: 0 <= i < |rows| ==> rows[i].id != id
  {
    if rows == [] then None
    else if rows[|rows| - 1].id == id then Some(|rows| - 1)
    else IndexOfId(rows[..|rows| - 1], id)
  }

  /** `reacted_by?` is exactly membership of the key. */
  lemma ReactedByIffKey(rows: seq<Reaction>, k: Key)
    ensures ReactedBy(rows, k) <==> k in Keys(rows)
  {
    if k in Keys(rows) {
      var r :| r in rows && KeyOf(r) == k;
      var i :| 0 <= i < |rows| && rows[i] == r;
    }
  }

  /** `for_emoji`: exactly the reactions with this emoji. */
  function ForEmoji(rows: seq<Reaction>, emoji: string): (r: seq<Reaction>)
    ensures forall x :: x in r <==> x in rows && x.emoji == emoji
  {
    Seqs.Filter(rows, (x: Reaction) => x.emoji == emoji)
  }

  /** `by_user`: exactly the reactions of this user. */
  function ByUser(rows: seq<Reaction>, userId: nat): (r: seq<Reaction>)
    ensures forall x :: x in r <==> x in rows && x.userId == userId
  {
    Seqs.Filter(rows, (x: Reaction) => x.userId == userId)
  }

  /** The number of the message's reactions. */
  function CountOnMessage(rows: seq<Reaction>, messageId: nat): nat {
    if rows == [] then 0
    else CountOnMessage(rows[..|rows| - 1], messageId) + (if rows[|rows| - 1].messageId == messageId then 1 else 0)
  }

  /** The number of the message's reactions with this emoji. */
  function CountEmoji(rows: seq<Reaction>, messageId: nat, emoji: string): nat {
    if rows == [] then 0
    else
      CountEmoji(rows[..|rows| - 1], messageId, emoji)
      + (if rows[|rows| - 1].messageId == messageId && rows[|rows| - 1].emoji == emoji then 1 else 0)
  }

  /** One row of `grouped_counts`: an emoji and how many reactions use it. */
  datatype EmojiCount = EmojiCount(emoji: string, count: nat)

  /** The sum of the counts. */
  function Total(g: seq<EmojiCount>): nat {
    if g == [] then 0 else g[0].count + Total(g[1..])
  }

  /** The count listed for `emoji`, 0 when it is not listed. */
  function CountIn(g: seq<EmojiCount>, emoji: string): nat {
    if g == [] then 0 else (if g[0].emoji == emoji then g[0].count else 0) + CountIn(g[1..], emoji)
  }

  /** Each emoji is listed once, with a positive count. */
  predicate WellGrouped(g: seq<EmojiCount>) {
    (forall i :: 0 <= i < |g| ==> g[i].count > 0)
    && (forall i, j :: 0 <= i < j < |g| ==> g[i].emoji != g[j].emoji)
  }

  /** Counts one more reaction with `emoji`: its entry goes up by one, or a new entry of 1 is added. */
  function Bump(g: seq<EmojiCount>, emoji: string): (r: seq<EmojiCount>)
    requires WellGrouped(g)
    ensures WellGrouped(r)
    ensures Total(r) == Total(g) + 1
    ensures forall e :: CountIn(r, e) == CountIn(g, e) + (if e == emoji then 1 else 0)
  {
    if g == [] then [EmojiCount(emoji, 1)]
    else
      var tail := g[1..];
      SplitGrouped(g);
      if g[0].emoji == emoji then
        var x := g[0].(count := g[0].count + 1);
        ConsGrouped(x, tail);
        [x] + tail
      else
        var rest := Bump(tail, emoji);
        NotListedCountsZero(tail, g[0].emoji);
        ZeroCountNotListed(rest, g[0].emoji);
        ConsGrouped(g[0], rest);
        [g[0]] + rest
  }

  /** The tail of a well-grouped list is well grouped and does not list the head's emoji. */
  lemma SplitGrouped(g: seq<EmojiCount>)
    requires WellGrouped(g) && g != []
    ensures WellGrouped(g[1..])
    ensures forall i :: 0 <= i < |g[1..]| ==> g[1..][i].emoji != g[0].emoji
  {
    assert forall i :: 0 <= i < |g[1..]| ==> g[1..][i] == g[i + 1];
  }

  /** Putting an entry for an emoji the list does not have in front keeps it well grouped. */
  lemma ConsGrouped(x: EmojiCount, rest: seq<EmojiCount>)
    requires WellGrouped(rest) && x.count > 0
    requires forall i :: 0 <= i < |rest| ==> rest[i].emoji != x.emoji
    ensures WellGrouped([x] + rest)
    ensures Total([x] + rest) == x.count + Total(rest)
    ensures forall e :: CountIn([x] + rest, e) == (if x.emoji == e then x.count else 0) + CountIn(rest, e)
  {
    var r := [x] + rest;
    assert r[1..] == rest;
    assert forall i :: 1 <= i < |r| ==> r[i] == rest[i - 1];
  }

  /** An emoji that is not listed has count 0. */
  lemma {:induction false} NotListedCountsZero(g: seq<EmojiCount>, emoji: string)
    requires forall i :: 0 <= i < |g| ==> g[i].emoji != emoji
    ensures CountIn(g, emoji) == 0
  {
    if g != [] {
      NotListedCountsZero(g[1..], emoji);
    }
  }

  /** With positive counts, an emoji whose count is 0 is not listed. */
  lemma {:induction false} ZeroCountNotListed(g: seq<EmojiCount>, emoji: string)
    requires forall i :: 0 <= i < |g| ==> g[i].count > 0
    requires CountIn(g, emoji) == 0
    ensures forall i :: 0 <= i < |g| ==> g[i].emoji != emoji
  {
    if g != [] {
      assert forall i :: 0 <= i < |g[1..]| ==> g[1..][i] == g[i + 1];
      ZeroCountNotListed(g[1..], emoji);
    }
  }

  /** In a well-grouped list an emoji is listed exactly when its count is positive. */
  lemma ListedIffCounted(g: seq<EmojiCount>, emoji: string)
    requires WellGrouped(g)
    ensures (exists i :: 0 <= i < |g| && g[i].emoji == emoji) <==> CountIn(g, emoji) > 0
  {
    if CountIn(g, emoji) == 0 {
      ZeroCountNotListed(g, emoji);
    } else if forall i :: 0 <= i < |g| ==> g[i].emoji != emoji {
      NotListedCountsZero(g, emoji);
    }
  }

  /**
   * `grouped_reactions` / `grouped_counts`: each emoji used on the message, once, with the
   * number of its reactions; the counts add up to the message's reactions.
   */
  function GroupedCounts(rows: seq<Reaction>, messageId: nat): (g: seq<EmojiCount>)
    ensures WellGrouped(g)
    ensures Total(g) == CountOnMessage(rows, messageId)
    ensures forall e :: CountIn(g, e) == CountEmoji(rows, messageId, e)
  {
    if rows == [] then []
    else
      var g := GroupedCounts(rows[..|rows| - 1], messageId);
      var last := rows[|rows| - 1];
      if last.messageId == messageId then Bump(g, last.emoji) else g
  }

  /** The reactions table. */
  class ReactionTable {
    var rows: seq<Reaction>
    var nextId: nat

    ghost predicate Valid()
      reads this
    {
      RowsValid(rows, nextId)
    }

    constructor ()
      ensures Valid() && rows == []
    {
      rows := [];
      nextId := 1;
    }

    /**
     * `add_reaction` (find_or_create_by): an existing reaction is returned untouched; a new one
     * is stored unless its emoji is blank, in which case nothing is saved.
     */
    method Add(k: Key) returns (r: Option<Reaction>)
      requires Valid()
      modifies this
      ensures Valid()
      ensures match old(IndexOfKey(rows, k))
        case Some(i) => r == Some(old(rows)[i]) && rows == old(rows)
        case None =>
          if IsBlank(k.emoji) then r.None? && rows == old(rows)
          else r == Some(Reaction(old(nextId), k.messageId, k.userId, k.emoji)) && rows == old(rows) + [r.value]
      ensures Keys(rows) == if IsBlank(k.emoji) then old(Keys(rows)) else old(Keys(rows)) + {k}
    {
      var found := IndexOfKey(rows, k);
      if found.Some? {
        r := Some(rows[found.value]);
        ReactedByIffKey(rows, k);
        return;
      }
      if IsBlank(k.emoji) {
        return None;
      }
      var x := Reaction(nextId, k.messageId, k.userId, k.emoji);
      Seqs.AppendPairwise(rows, x, Distinct);
      rows := rows + [x];
      nextId := nextId + 1;
      r := Some(x);
    }

    /** `remove_reaction` (find_by then destroy): the reaction with the key goes, if there is one. */
    method Remove(k: Key) returns (removed: bool)
      requires Valid()
      modifies this
      ensures Valid() && nextId == old(nextId)
      ensures match old(IndexOfKey(rows, k))
        case None => !removed && rows == old(rows)
        case Some(i) => removed && rows == old(rows)[..i] + old(rows)[i + 1..]
      ensures removed <==> old(k in Keys(rows))
      ensures Keys(rows) == old(Keys(rows)) - {k}
    {
      ReactedByIffKey(rows, k);
      var found := IndexOfKey(rows, k);
      if found.None? {
        return false;
      }
      RemoveKeyed(rows, nextId, found.value);
      rows := rows[..found.value] + rows[found.value + 1..];
      removed := true;
    }

    /** Destroys one reaction by position (the controller's `@reaction.destroy`). */
    method DestroyAt(i: nat)
      requires Valid() && i < |rows|
      modifies this
      ensures Valid() && nextId == old(nextId)
      ensures rows == old(rows)[..i] + old(rows)[i + 1..]
      ensures Keys(rows) == old(Keys(rows)) - {KeyOf(old(rows)[i])}
    {
      RemoveKeyed(rows, nextId, i);
      rows := rows[..i] + rows[i + 1..];
    }

    /** The reactions of destroyed messages go with them (`dependent: :destroy`). */
    method DestroyForMessages(gone: set<nat>)
      requires Valid()
      modifies this
      ensures Valid() && nextId == old(nextId)
      ensures forall x :: x in rows <==> x in old(rows) && x.messageId !in gone
    {
      var p := (x: Reaction) => x.messageId !in gone;
      Seqs.FilterPairwise(rows, p, Distinct);
      var kept := Seqs.Filter(rows, p);
      assert forall i :: 0 <= i < |kept| ==> kept[i] in rows;
      rows := kept;
    }
  }

  /** Removing one row keeps the invariant and takes exactly its key out of the key set. */
  lemma RemoveKeyed(rows: seq<Reaction>, nextId: nat, i: nat)
    requires RowsValid(rows, nextId) && i < |rows|
    ensures RowsValid(rows[..i] + rows[i + 1..], nextId)
    ensures Keys(rows[..i] + rows[i + 1..]) == Keys(rows) - {KeyOf(rows[i])}
  {
    var r := rows[..i] + rows[i + 1..];
    Seqs.RemoveAtPairwise(rows, i, Distinct);
    forall j | 0 <= j < |r| ensures r[j].id < nextId && !IsBlank(r[j].emoji) {
      assert r[j] == rows[if j < i then j else j + 1];
    }
    OthersKeyed(rows, i);
    RemoveKeys(rows, i);
  }

  /** When no other row shares its key, removing the row at `i` removes exactly its key. */
  lemma RemoveKeys(rows: seq<Reaction>, i: nat)
    requires i < |rows|
    requires forall j :: 0 <= j < |rows| && j != i ==> KeyOf(rows[j]) != KeyOf(rows[i])
    ensures Keys(rows[..i] + rows[i + 1..]) == Keys(rows) - {KeyOf(rows[i])}
  {
    var r := rows[..i] + rows[i + 1..];
    forall k | k in Keys(r) ensures k in Keys(rows) && k != KeyOf(rows[i]) {
      var x :| x in r && KeyOf(x) == k;
      var j :| 0 <= j < |r| && r[j] == x;
      assert r[j] == rows[if j < i then j else j + 1];
    }
    forall k | k in Keys(rows) && k != KeyOf(rows[i]) ensures k in Keys(r) {
      var x :| x in rows && KeyOf(x) == k;
      var j :| 0 <= j < |rows| && rows[j] == x;
      assert r[if j < i then j else j - 1] == x;
    }
  }

  /** In a valid table no other row shares the key of the row at `i`. */
  lemma OthersKeyed(rows: seq<Reaction>, i: nat)
    requires Seqs.Pairwise(rows, Distinct) && i < |rows|
    ensures forall j :: 0 <= j < |rows| && j != i ==> KeyOf(rows[j]) != KeyOf(rows[i])
  {
    forall j | 0 <= j < |rows| && j != i ensures KeyOf(rows[j]) != KeyOf(rows[i]) {
      if j < i {
        assert Distinct(rows[j], rows[i]);
      } else {
        assert Distinct(rows[i], rows[j]);
      }
    }
  }

  /** `create`'s toggle on the key set: remove the key if present, add it otherwise. */
  function Toggled(keys: set<Key>, k: Key): (r: set<Key>)
    ensures k in r <==> k !in keys
    ensures r - {k} == keys - {k}
  {
    if k in keys then keys - {k} else keys + {k}
  }

  /** Toggling the same key twice restores the key set. */
  lemma ToggleTwice(keys: set<Key>, k: Key)
    ensures Toggled(Toggled(keys, k), k) == keys
  {
  }
}
