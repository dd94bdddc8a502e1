/**
 * Read receipts: at most one per (message, user), created by `mark_read_by!`; the time a
 * message was read is the receipt's creation time.
 */
module Receipts {
  import opened Wrappers
  import Seqs
  import Sorting

  datatype Receipt = Receipt(id: nat, messageId: nat, userId: nat, createdAt: int)
  {
    /** `read_at` is the creation time. */
    function ReadAt(): int { createdAt }
  }

  /** Two stored receipts never share an id or a (message, user) pair. */
  predicate Distinct(a: Receipt, b: Receipt) {
    a.id != b.id && (a.messageId != b.messageId || a.userId != b.userId)
  }

  ghost predicate RowsValid(rows: seq<Receipt>, nextId: nat) {
    (forall i :: 0 <= i < |rows| ==> rows[i].id < nextId) && Seqs.Pairwise(rows, Distinct)
  }

  /** `read_by?` */
  predicate ReadBy(rows: seq<Receipt>, messageId: nat, userId: nat) {
    exists i :: 0 <= i < |rows| && rows[i].messageId == messageId && rows[i].userId == userId
  }

  /** The position of the user's receipt for the message, if any. */
  function IndexOfReceipt(rows: seq<Receipt>, messageId: nat, userId: nat): (r: Option<nat>)
    ensures r.Some? ==> r.value < |rows| && rows[r.value].messageId == messageId && rows[r.value].userId == userId
    ensures r.None? <==> !ReadBy(rows, messageId, userId)
  {
    if rows == [] then None
    else if rows[|rows| - 1].messageId == messageId && rows[|rows| - 1].userId == userId then Some(|rows| - 1)
    else
      var r := IndexOfReceipt(rows[..|rows| - 1], messageId, userId);
      assert r.Some? ==> rows[..|rows| - 1][r.value] == rows[r.value];
      r
  }

  /** How many receipts the user holds for the message. */
  function ReceiptCount(rows: seq<Receipt>, messageId: nat, userId: nat): nat {
    if rows == [] then 0
    else
      ReceiptCount(rows[..|rows| - 1], messageId, userId)
      + (if rows[|rows| - 1].messageId == messageId && rows[|rows| - 1].userId == userId then 1 else 0)
  }

  /** With the uniqueness rule, a user holds one receipt for a message it has read and none otherwise. */
  lemma {:induction false} ReceiptCountUnique(rows: seq<Receipt>, nextId: nat, messageId: nat, userId: nat)
    requires RowsValid(rows, nextId)
    ensures ReceiptCount(rows, messageId, userId) == if ReadBy(rows, messageId, userId) then 1 else 0
  {
    if rows != [] {
      var init := rows[..|rows| - 1];
      var last := rows[|rows| - 1];
      assert RowsValid(init, nextId) by {
        assert forall i :: 0 <= i < |init| ==> init[i] == rows[i];
      }
      ReceiptCountUnique(init, nextId, messageId, userId);
      if last.messageId == messageId && last.userId == userId {
        forall i | 0 <= i < |init| ensures init[i].messageId != messageId || init[i].userId != userId {
          assert init[i] == rows[i];
        }
      } else if ReadBy(rows, messageId, userId) {
        var i :| 0 <= i < |rows| && rows[i].messageId == messageId && rows[i].userId == userId;
        assert i < |init| && init[i] == rows[i];
      }
    }
  }

  /** `for_message`: exactly the receipts of this message. */
  function ForMessage(rows: seq<Receipt>, messageId: nat): (r: seq<Receipt>)
    ensures forall x :: x in r <==> x in rows && x.messageId == messageId
  {
    Seqs.Filter(rows, (x: Receipt) => x.messageId == messageId)
  }

  /** `by_user`: exactly the receipts of this user. */
  function ByUser(rows: seq<Receipt>, userId: nat): (r: seq<Receipt>)
    ensures forall x :: x in r <==> x in rows && x.userId == userId
  {
    Seqs.Filter(rows, (x: Receipt) => x.userId == userId)
  }

  /** `recent`: the same receipts, newest first. */
  function Recent(rows: seq<Receipt>): (r: seq<Receipt>)
    ensures multiset(r) == multiset(rows)
    ensures forall i, j :: 0 <= i < j < |r| ==> r[i].createdAt >= r[j].createdAt
  {
    var r := Sorting.SortBy(rows, (x: Receipt) => -x.createdAt);
    assert forall i, j :: 0 <= i < j < |r| ==> -r[i].createdAt <= -r[j].createdAt;
    r
  }

  /** The read receipts table. */
  class ReceiptTable {
    var rows: seq<Receipt>
    var nextId: nat

    ghost predicate Valid()
      reads this
    {
      RowsValid(rows, nextId)
    }

    constructor ()
      ensures Valid() && rows == []
    {
      rows := [];
      nextId := 1;
    }

    /**
     * `mark_read_by!` (find_or_create_by): an existing receipt is returned untouched, otherwise
     * one stamped `now` is stored. Afterwards the user holds exactly one receipt for the message.
     */
    method MarkReadBy(messageId: nat, userId: nat, now: int) returns (r: Receipt)
      requires Valid()
      modifies this
      ensures Valid()
      ensures match old(IndexOfReceipt(rows, messageId, userId))
        case Some(i) => r == old(rows)[i] && rows == old(rows)
        case None => r == Receipt(old(nextId), messageId, userId, now) && rows == old(rows) + [r]
      ensures r.messageId == messageId && r.userId == userId
      ensures ReadBy(rows, messageId, userId) && ReceiptCount(rows, messageId, userId) == 1
    {
      var found := IndexOfReceipt(rows, messageId, userId);
      if found.Some? {
        r := rows[found.value];
      } else {
        r := Receipt(nextId, messageId, userId, now);
        Seqs.AppendPairwise(rows, r, Distinct);
        rows := rows + [r];
        nextId := nextId + 1;
        assert rows[|rows| - 1] == r;
      }
      ReceiptCountUnique(rows, nextId, messageId, userId);
    }

    /** The receipts of destroyed messages go with them (`dependent: :destroy`). */
    method DestroyForMessages(gone: set<nat>)
      requires Valid()
      modifies this
      ensures Valid() && nextId == old(nextId)
      ensures forall x :: x in rows <==> x in old(rows) && x.messageId !in gone
    {
      var p := (x: Receipt) => x.messageId !in gone;
      Seqs.FilterPairwise(rows, p, Distinct);
      var kept := Seqs.Filter(rows, p);
      assert forall i :: 0 <= i < |kept| ==> kept[i] in rows;
      rows := kept;
    }
  }
}
