/**
 * Chat messages: content and attachment validation, soft deletion with a tombstone,
 * editing, threads (replies) and the messages table.
 */
module Messages {
  import opened Wrappers
  import opened Text

  const Megabyte: nat := 1048576
  /** `100.megabytes`. */
  const MaxAttachmentSize: nat := 100 * Megabyte
  const MaxContentLength: nat := 10000

  const ImageTypes: seq<string> := ["image/jpeg", "image/png", "image/gif", "image/webp", "image/heic", "image/heif"]
  const VideoTypes: seq<string> := ["video/mp4", "video/quicktime", "video/webm", "video/x-msvideo"]
  const DocumentTypes: seq<string> :=
    ["application/pdf", "application/msword",
     "application/vnd.openxmlformats-officedocument.wordprocessingml.document", "text/plain"]

  /** What the model keeps of a stored file: its name, declared content type and size in bytes. */
  datatype Attachment = Attachment(filename: string, contentType: string, byteSize: nat)

  /**
   * A message row. A nil content is the empty string; `mentionedUserIds` is the column the
   * mention service writes.
   */
  datatype Message = Message(
    id: nat,
    chatId: nat,
    userId: nat,
    content: string,
    createdAt: int,
    deletedAt: Option<int>,
    edited: bool,
    parentId: Option<nat>,
    attachments: seq<Attachment>,
    mentionedUserIds: seq<nat>)
  {
    predicate IsDeleted() { deletedAt.Some? }
    predicate IsReply() { parentId.Some? }
    predicate HasAttachments() { attachments != [] }
  }

  predicate IsImage(contentType: string) { contentType in ImageTypes }
  predicate IsVideo(contentType: string) { contentType in VideoTypes }
  predicate IsDocument(contentType: string) { contentType in DocumentTypes }
  /** `ALLOWED_CONTENT_TYPES`: the three lists together. */
  predicate IsAllowedType(contentType: string) { IsImage(contentType) || IsVideo(contentType) || IsDocument(contentType) }

  /** An attachment within the size limit and of an allowed type. */
  predicate Acceptable(a: Attachment) { a.byteSize <= MaxAttachmentSize && IsAllowedType(a.contentType) }

  /** The errors one attachment adds: one for its size, one for its type. */
  function ErrorsFor(a: Attachment): (errs: seq<string>)
    ensures |errs| <= 2
    ensures errs == [] <==> Acceptable(a)
  {
    (if a.byteSize > MaxAttachmentSize
     then [a.filename + " is too large (max " + NatToString(MaxAttachmentSize / Megabyte) + "MB)"]
     else [])
    + (if !IsAllowedType(a.contentType) then [a.filename + " has an unsupported file type"] else [])
  }

  /** The errors of the attachment validation, in attachment order. */
  function AttachmentErrors(atts: seq<Attachment>): (errs: seq<string>)
    ensures |errs| <= 2 * |atts|
  {
    if atts == [] then [] else AttachmentErrors(atts[..|atts| - 1]) + ErrorsFor(atts[|atts| - 1])
  }

  /** The attachment validation passes exactly when every file is small enough and of an allowed type. */
  lemma {:induction false} AttachmentErrorsEmpty(atts: seq<Attachment>)
    ensures AttachmentErrors(atts) == [] <==> forall i :: 0 <= i < |atts| ==> Acceptable(atts[i])
  {
    if atts != [] {
      var init := atts[..|atts| - 1];
      AttachmentErrorsEmpty(init);
      assert forall i :: 0 <= i < |init| ==> init[i] == atts[i];
    }
  }

  /** `validate_attachments`: walks the attachments, adding a size error and a type error as each applies. */
  method ValidateAttachments(atts: seq<Attachment>) returns (errs: seq<string>)
    ensures errs == AttachmentErrors(atts)
  {
    errs := [];
    var i := 0;
    while i < |atts|
      invariant 0 <= i <= |atts|
      invariant errs == AttachmentErrors(atts[..i])
    {
      var a := atts[i];
      if a.byteSize > MaxAttachmentSize {
        errs := errs + [a.filename + " is too large (max " + NatToString(MaxAttachmentSize / Megabyte) + "MB)"];
      }
      if !IsAllowedType(a.contentType) {
        errs := errs + [a.filename + " has an unsupported file type"];
      }
      assert atts[..i + 1][..i] == atts[..i];
      i := i + 1;
    }
    assert atts[..i] == atts;
  }

  /**
   * Every validation of a message: content is required unless there are attachments, is
   * at most 10,000 characters, and the attachments pass their own check.
   */
  predicate ContentValid(content: string, atts: seq<Attachment>) {
    (atts != [] || !IsBlank(content)) && |content| <= MaxContentLength && AttachmentErrors(atts) == []
  }

  /**
   * The errors' full messages, in the order the validations run: presence (waived when there
   * are attachments), length, then each attachment error under the `attachments` attribute.
   */
  function FullMessages(content: string, atts: seq<Attachment>): (r: seq<string>)
    ensures r == [] <==> ContentValid(content, atts)
    ensures atts == [] && IsBlank(content) ==> |r| > 0 && r[0] == "Encrypted content can't be blank"
  {
    (if atts == [] && IsBlank(content) then ["Encrypted content can't be blank"] else [])
    + (if |content| > MaxContentLength then ["Encrypted content is too long (maximum is 10000 characters)"] else [])
    + AttachmentMessages(AttachmentErrors(atts))
  }

  /** Each attachment error, prefixed with its attribute's name. */
  function AttachmentMessages(errs: seq<string>): (r: seq<string>)
    ensures |r| == |errs|
    ensures forall i :: 0 <= i < |r| ==> r[i] == "Attachments " + errs[i]
  {
    if errs == [] then [] else ["Attachments " + errs[0]] + AttachmentMessages(errs[1..])
  }

  /** `display_content`: the tombstone for a deleted message, its content otherwise. */
  function DisplayContent(m: Message): (r: string)
    ensures m.IsDeleted() ==> r == "[Message deleted]"
    ensures !m.IsDeleted() ==> r == m.content
  {
    if m.IsDeleted() then "[Message deleted]" else m.content
  }

  /** The number of replies to `parent` that are not deleted. */
  function ReplyCount(rows: seq<Message>, parent: nat): (n: nat)
    ensures n <= |rows|
  {
    if rows == [] then 0
    else ReplyCount(rows[..|rows| - 1], parent)
         + (if rows[|rows| - 1].parentId == Some(parent) && !rows[|rows| - 1].IsDeleted() then 1 else 0)
  }

  /** The reply count is 0 exactly when every reply to the parent is deleted. */
  lemma {:induction false} ReplyCountZero(rows: seq<Message>, parent: nat)
    ensures ReplyCount(rows, parent) == 0 <==>
      forall i :: 0 <= i < |rows| ==> rows[i].parentId != Some(parent) || rows[i].IsDeleted()
  {
    if rows != [] {
      var init := rows[..|rows| - 1];
      ReplyCountZero(init, parent);
      assert forall i :: 0 <= i < |init| ==> init[i] == rows[i];
    }
  }

  /** Soft-deleting a live reply takes exactly one off its parent's reply count. */
  lemma {:induction false} ReplyCountAfterSoftDelete(rows: seq<Message>, i: nat, parent: nat, t: int)
    requires i < |rows| && rows[i].parentId == Some(parent) && !rows[i].IsDeleted()
    ensures ReplyCount(rows[i := rows[i].(deletedAt := Some(t))], parent) == ReplyCount(rows, parent) - 1
  {
    var x := rows[i].(deletedAt := Some(t));
    var rows' := rows[i := x];
    var last := |rows| - 1;
    if i < last {
      var init := rows[..last];
      assert rows'[..last] == init[i := x];
      assert rows'[last] == rows[last];
      ReplyCountAfterSoftDelete(init, i, parent, t);
    } else {
      assert rows'[..last] == rows[..last];
      assert rows'[last] == x;
    }
  }

  /** `has_replies?`: some message names `parent`, deleted replies included. */
  function HasReplies(rows: seq<Message>, parent: nat): (b: bool)
    ensures b <==> exists i :: 0 <= i < |rows| && rows[i].parentId == Some(parent)
    ensures ReplyCount(rows, parent) > 0 ==> b
  {
    ReplyCountZero(rows, parent);
    exists i :: 0 <= i < |rows| && rows[i].parentId == Some(parent)
  }

  /** The ids of the chat's messages. */
  function ChatMessageIds(rows: seq<Message>, chatId: nat): set<nat> {
    set m | m in rows && m.chatId == chatId :: m.id
  }

  /** A reply whose parent is among the destroyed messages loses its parent (`dependent: :nullify`). */
  function Detach(m: Message, gone: set<nat>): Message {
    if m.parentId.Some? && m.parentId.value in gone then m.(parentId := None) else m
  }

  /**
   * The messages that survive the destruction of a chat, in their order: the chat's own are
   * gone, and replies to a destroyed message are detached.
   */
  function Surviving(rows: seq<Message>, chatId: nat, gone: set<nat>): (r: seq<Message>)
    ensures |r| <= |rows|
    ensures forall m | m in r :: m.chatId != chatId && (m.parentId.Some? ==> m.parentId.value !in gone)
    ensures forall m | m in rows && m.chatId != chatId :: Detach(m, gone) in r
    ensures forall m | m in r :: exists k :: 0 <= k < |rows| && rows[k].chatId != chatId && m == Detach(rows[k], gone)
  {
    if rows == [] then []
    else
      var init := rows[..|rows| - 1];
      var last := rows[|rows| - 1];
      var rest := Surviving(init, chatId, gone);
      assert rows == init + [last];
      assert forall m | m in rest :: exists k :: 0 <= k < |rows| && rows[k].chatId != chatId && m == Detach(rows[k], gone) by {
        forall m | m in rest ensures exists k :: 0 <= k < |rows| && rows[k].chatId != chatId && m == Detach(rows[k], gone) {
          var k :| 0 <= k < |init| && init[k].chatId != chatId && m == Detach(init[k], gone);
          assert rows[k] == init[k];
        }
      }
      if last.chatId == chatId then rest else rest + [Detach(last, gone)]
  }

  /** The messages table. */
  class MessageTable {
    var rows: seq<Message>
    var nextId: nat

    /** Ids are unique and below `nextId`, and every stored message passes validation. */
    ghost predicate Valid()
      reads this
    {
      RowsValid(rows, nextId)
    }

    constructor ()
      ensures Valid() && rows == []
    {
      rows := [];
      nextId := 1;
    }

    function IndexOf(id: nat): (r: Option<nat>)
      reads this
      ensures r.Some? ==> r.value < |rows| && rows[r.value].id == id
      ensures r.None? ==> forall i :: 0 <= i < |rows| ==> rows[i].id != id
    {
      IndexIn(rows, id)
    }

    /** `chat.messages.find(id)`: the message with this id, provided it belongs to the chat. */
    function FindInChat(chatId: nat, id: nat): (r: Option<Message>)
      reads this
      requires Valid()
      ensures r.Some? ==> r.value in rows && r.value.id == id && r.value.chatId == chatId
      ensures r.None? ==> forall m | m in rows :: m.id != id || m.chatId != chatId
    {
      match IndexOf(id)
      case Some(i) => if rows[i].chatId == chatId then Some(rows[i]) else None
      case None => None
    }

    /** Saves a new message posted at `now`, unless it fails validation. */
    method Create(chatId: nat, userId: nat, content: string, parentId: Option<nat>, atts: seq<Attachment>, now: int)
      returns (r: Option<Message>)
      requires Valid()
      modifies this
      ensures Valid()
      ensures ContentValid(content, atts) ==>
        r.Some? && rows == old(rows) + [r.value] && r.value.id == old(nextId)
        && r.value == Message(r.value.id, chatId, userId, content, now, None, false, parentId, atts, [])
      ensures !ContentValid(content, atts) ==> r.None? && rows == old(rows)
    {
      if !ContentValid(content, atts) {
        return None;
      }
      var m := Message(nextId, chatId, userId, content, now, None, false, parentId, atts, []);
      rows := rows + [m];
      nextId := nextId + 1;
      return Some(m);
    }

    /** `soft_delete!`: stamps `deleted_at`; the content and everything else stay. */
    method SoftDelete(id: nat, now: int)
      requires Valid()
      modifies this
      ensures Valid() && nextId == old(nextId)
      ensures match old(IndexOf(id))
        case None => rows == old(rows)
        case Some(i) => rows == old(rows)[i := old(rows)[i].(deletedAt := Some(now))]
    {
      var k := IndexOf(id);
      if k.Some? {
        rows := rows[k.value := rows[k.value].(deletedAt := Some(now))];
      }
    }

    /**
     * `edit!`: replaces the content and sets `edited`; refused (false, nothing changed) when
     * the new content fails validation.
     */
    method Edit(id: nat, newContent: string) returns (ok: bool)
      requires Valid()
      modifies this
      ensures Valid() && nextId == old(nextId)
      ensures match old(IndexOf(id))
        case None => !ok && rows == old(rows)
        case Some(i) =>
          var m := old(rows)[i];
          if ContentValid(newContent, m.attachments) then
            ok && rows == old(rows)[i := m.(content := newContent, edited := true)]
          else
            !ok && rows == old(rows)
    {
      var k := IndexOf(id);
      if k.None? || !ContentValid(newContent, rows[k.value].attachments) {
        return false;
      }
      rows := rows[k.value := rows[k.value].(content := newContent, edited := true)];
      return true;
    }

    /**
     * The chat's `dependent: :destroy` on messages: every message of the chat goes and its
     * replies are detached; `gone` are the destroyed ids, for the reactions and receipts.
     */
    method DestroyChat(chatId: nat) returns (gone: set<nat>)
      requires Valid()
      modifies this
      ensures Valid() && nextId == old(nextId)
      ensures gone == ChatMessageIds(old(rows), chatId)
      ensures rows == Surviving(old(rows), chatId, gone)
    {
      gone := ChatMessageIds(rows, chatId);
      SurvivingKeepsValid(rows, nextId, chatId, gone);
      rows := Surviving(rows, chatId, gone);
    }

    /** Writes the `mentioned_user_ids` column of a message. */
    method SetMentionedUserIds(id: nat, ids: seq<nat>)
      requires Valid()
      modifies this
      ensures Valid() && nextId == old(nextId)
      ensures match old(IndexOf(id))
        case None => rows == old(rows)
        case Some(i) => rows == old(rows)[i := old(rows)[i].(mentionedUserIds := ids)]
    {
      var k := IndexOf(id);
      if k.Some? {
        rows := rows[k.value := rows[k.value].(mentionedUserIds := ids)];
      }
    }
  }

  /** The table invariant, on a sequence of rows. */
  ghost predicate RowsValid(rows: seq<Message>, nextId: nat) {
    (forall i :: 0 <= i < |rows| ==> rows[i].id < nextId && ContentValid(rows[i].content, rows[i].attachments))
    && (forall i, j :: 0 <= i < j < |rows| ==> rows[i].id != rows[j].id)
  }

  /** Destroying a chat keeps ids unique and every surviving message valid. */
  lemma {:induction false} SurvivingKeepsValid(rows: seq<Message>, nextId: nat, chatId: nat, gone: set<nat>)
    requires RowsValid(rows, nextId)
    ensures RowsValid(Surviving(rows, chatId, gone), nextId)
  {
    if rows != [] {
      var init := rows[..|rows| - 1];
      var last := rows[|rows| - 1];
      assert RowsValid(init, nextId) by {
        assert forall i :: 0 <= i < |init| ==> init[i] == rows[i];
      }
      SurvivingKeepsValid(init, nextId, chatId, gone);
      var rest := Surviving(init, chatId, gone);
      if last.chatId != chatId {
        SurvivorAppended(init, last, nextId, chatId, gone);
      }
    }
  }

  /** The step of the lemma above where the last message survives. */
  lemma SurvivorAppended(init: seq<Message>, last: Message, nextId: nat, chatId: nat, gone: set<nat>)
    requires RowsValid(Surviving(init, chatId, gone), nextId)
    requires last.id < nextId && ContentValid(last.content, last.attachments)
    requires forall i :: 0 <= i < |init| ==> init[i].id != last.id
    ensures RowsValid(Surviving(init, chatId, gone) + [Detach(last, gone)], nextId)
  {
    var rest := Surviving(init, chatId, gone);
    var d := Detach(last, gone);
    forall i | 0 <= i < |rest| ensures rest[i].id != d.id {
      assert rest[i] in rest;
      var k :| 0 <= k < |init| && init[k].chatId != chatId && rest[i] == Detach(init[k], gone);
    }
    AppendKeepsValid(rest, nextId, d);
  }

  lemma AppendKeepsValid(rows: seq<Message>, nextId: nat, m: Message)
    requires RowsValid(rows, nextId)
    requires m.id < nextId && ContentValid(m.content, m.attachments)
    requires forall i :: 0 <= i < |rows| ==> rows[i].id != m.id
    ensures RowsValid(rows + [m], nextId)
  {
    var r := rows + [m];
    forall i | 0 <= i < |r| ensures r[i].id < nextId && ContentValid(r[i].content, r[i].attachments) {
      if i < |rows| {
        assert r[i] == rows[i];
      }
    }
    forall i, j | 0 <= i < j < |r| ensures r[i].id != r[j].id {
      assert r[i] == rows[i];
      if j < |rows| {
        assert r[j] == rows[j];
      }
    }
  }

  function IndexIn(rows: seq<Message>, id: nat): (r: Option<nat>)
    ensures r.Some? ==> r.value < |rows| && rows[r.value].id == id
    ensures r.None? ==> forall i :: 0 <= i < |rows| ==> rows[i].id != id
  {
    if rows == [] then None
    else if rows[|rows| - 1].id == id then Some(|rows| - 1)
    else IndexIn(rows[..|rows| - 1], id)
  }

  /** The stored message with this id. */
  function FindById(rows: seq<Message>, id: nat): (r: Option<Message>)
    ensures r.Some? ==> r.value in rows && r.value.id == id
    ensures r.None? ==> forall m | m in rows :: m.id != id
  {
    match IndexIn(rows, id)
    case Some(i) => Some(rows[i])
    case None => None
  }
}
