/**
 * @mentions: the pattern `@([A-Z][a-z]+(?:\s+[A-Z][a-z]+)?)`, the names it extracts (first
 * word of each match, in order), their resolution to chat members by exact first name, the
 * notifications a mention creates, and the escape-then-wrap highlighter.
 */
module Mentions {
  import opened Wrappers
  import opened Text
  import Seqs
  import Users
  import Messages
  import Notifications
  import Memberships
  import Chats

  predicate IsUpper(c: char) { 'A' <= c <= 'Z' }
  predicate IsLower(c: char) { 'a' <= c <= 'z' }

  /** The end of the run of lowercase letters starting at `i`. */
  function LowerRunEnd(s: string, i: nat): (j: nat)
    requires i <= |s|
    ensures i <= j <= |s|
    ensures forall k :: i <= k < j ==> IsLower(s[k])
    ensures j == |s| || !IsLower(s[j])
    decreases |s| - i
  {
    if i == |s| || !IsLower(s[i]) then i else LowerRunEnd(s, i + 1)
  }

  /** The end of the run of whitespace starting at `i`. */
  function SpaceRunEnd(s: string, i: nat): (j: nat)
    requires i <= |s|
    ensures i <= j <= |s|
    ensures forall k :: i <= k < j ==> IsSpace(s[k])
    ensures j == |s| || !IsSpace(s[j])
    decreases |s| - i
  {
    if i == |s| || !IsSpace(s[i]) then i else SpaceRunEnd(s, i + 1)
  }

  /** A capitalised word: one ASCII capital followed by one or more ASCII lowercase letters. */
  predicate IsName(n: string) {
    |n| >= 2 && IsUpper(n[0]) && forall k :: 1 <= k < |n| ==> IsLower(n[k])
  }

  /** Where a match starting at `i` ends: after its first word, and after the whole match. */
  datatype Match = Match(wordEnd: nat, end: nat)

  /** A match can start at `i`: "@", a capital, a lowercase letter. */
  predicate StartsMatch(s: string, i: nat) {
    i + 2 < |s| && s[i] == '@' && IsUpper(s[i + 1]) && IsLower(s[i + 2])
  }

  /**
   * The match of the pattern at `i`, if any. Both words take every lowercase letter that
   * follows (greedy); the second word is taken when whitespace and a capital with a
   * lowercase letter come next, and otherwise the match stops after the first word.
   */
  function MatchAt(s: string, i: nat): (r: Option<Match>)
    requires i <= |s|
    ensures r.Some? <==> StartsMatch(s, i)
    ensures r.Some? ==> i + 3 <= r.value.wordEnd <= r.value.end <= |s|
    ensures r.Some? ==> IsName(s[i + 1..r.value.wordEnd])
    ensures r.Some? ==> r.value.wordEnd == |s| || !IsLower(s[r.value.wordEnd])
    ensures r.Some? && r.value.end > r.value.wordEnd ==>
      IsSpace(s[r.value.wordEnd]) && (r.value.end == |s| || !IsLower(s[r.value.end]))
  {
    if !StartsMatch(s, i) then None
    else
      var w := LowerRunEnd(s, i + 2);
      var sp := SpaceRunEnd(s, w);
      if sp > w && sp + 1 < |s| && IsUpper(s[sp]) && IsLower(s[sp + 1]) then Some(Match(w, LowerRunEnd(s, sp + 1)))
      else Some(Match(w, w))
  }

  /**
   * `content.scan(MENTION_PATTERN)` from `i`, each match reduced to its first word: matches
   * are taken leftmost first and do not overlap.
   */
  function NamesFrom(s: string, i: nat): (r: seq<string>)
    requires i <= |s|
    ensures forall n | n in r :: IsName(n)
    decreases |s| - i
  {
    if i == |s| then []
    else match MatchAt(s, i)
      case Some(m) => [s[i + 1..m.wordEnd]] + NamesFrom(s, m.end)
      case None => NamesFrom(s, i + 1)
  }

  /** `extract_mention_names` */
  function ExtractNames(content: string): (r: seq<string>)
    ensures forall n | n in r :: IsName(n)
  {
    NamesFrom(content, 0)
  }

  /** Text without an "@" mentions nobody. */
  lemma {:induction false} NoAtNoNames(s: string, i: nat)
    requires i <= |s| && forall k :: i <= k < |s| ==> s[k] != '@'
    ensures NamesFrom(s, i) == []
    decreases |s| - i
  {
    if i < |s| {
      NoAtNoNames(s, i + 1);
    }
  }

  /** A lone "@Name" yields exactly that name. */
  lemma SingleMention(n: string)
    requires IsName(n)
    ensures ExtractNames("@" + n) == [n]
  {
    var s := "@" + n;
    assert forall k :: 2 <= k < |s| ==> s[k] == n[k - 1];
    LowerRunAll(s, 2);
    assert SpaceRunEnd(s, |s|) == |s|;
    assert MatchAt(s, 0) == Some(Match(|s|, |s|));
    assert s[1..|s|] == n;
    assert NamesFrom(s, |s|) == [];
  }

  /** A run of lowercase letters to the end of the text is taken whole. */
  lemma {:induction false} LowerRunAll(s: string, i: nat)
    requires i <= |s| && forall k :: i <= k < |s| ==> IsLower(s[k])
    ensures LowerRunEnd(s, i) == |s|
    decreases |s| - i
  {
    if i < |s| {
      LowerRunAll(s, i + 1);
    }
  }

  /** `find_mentioned_users`: the chat's members whose first name equals one of the names, exactly. */
  function FindMentionedUsers(members: seq<Users.User>, names: seq<string>): (r: seq<Users.User>)
    ensures forall u :: u in r <==> u in members && u.firstName in names
    ensures names == [] ==> r == []
  {
    if names == [] then [] else Seqs.Filter(members, (u: Users.User) => u.firstName in names)
  }

  /** `mentioned_users.map(&:id)` */
  function IdsOf(users: seq<Users.User>): (ids: seq<nat>)
    ensures |ids| == |users|
    ensures forall k :: 0 <= k < |users| ==> ids[k] == users[k].id
  {
    if users == [] then [] else [users[0].id] + IdsOf(users[1..])
  }

  /**
   * The users a mention notifies: mentioned, not the author, and among `receives`, the users
   * wanting notifications for the chat (`should_receive_notification?`, read as
   * `Memberships.Receivers`).
   */
  predicate Notified(users: seq<Users.User>, authorId: nat, receives: set<nat>, userId: nat) {
    userId != authorId && userId in receives && exists u :: u in users && u.id == userId
  }

  /**
   * `create_mention_notifications`: for each mentioned user in turn, skip the author, skip a
   * user without a membership of the chat with notifications on, skip when the (user, author, message, "mention")
   * notification exists, else create it. Afterwards every notified user has that notification,
   * only such notifications were added, and no dedup key is duplicated.
   */
  method CreateMentionNotifications(notifications: Notifications.NotificationTable, m: Messages.Message,
                                    users: seq<Users.User>, memberships: seq<Memberships.Membership>, now: int)
    requires notifications.Valid()
    modifies notifications
    ensures notifications.Valid()
    ensures forall u | u in users && Notified(users, m.userId, Memberships.Receivers(memberships, m.chatId), u.id) ::
      Notifications.HasKey(notifications.rows, u.id, m.userId, m.id, Notifications.Mention)
    ensures |old(notifications.rows)| <= |notifications.rows|
    ensures notifications.rows[..|old(notifications.rows)|] == old(notifications.rows)
    ensures forall k :: |old(notifications.rows)| <= k < |notifications.rows| ==>
      IsNewMention(notifications.rows[k], m, users, Memberships.Receivers(memberships, m.chatId), old(notifications.rows))
    ensures Notifications.KeysUnique(old(notifications.rows)) ==> Notifications.KeysUnique(notifications.rows)
  {
    var receives := Memberships.Receivers(memberships, m.chatId);
    ghost var rows0 := notifications.rows;
    var i := 0;
    while i < |users|
      invariant 0 <= i <= |users|
      invariant notifications.Valid()
      invariant |rows0| <= |notifications.rows| && notifications.rows[..|rows0|] == rows0
      invariant forall j :: 0 <= j < i && Notified(users, m.userId, receives, users[j].id) ==>
        Notifications.HasKey(notifications.rows, users[j].id, m.userId, m.id, Notifications.Mention)
      invariant forall k :: |rows0| <= k < |notifications.rows| ==> IsNewMention(notifications.rows[k], m, users, receives, rows0)
      invariant Notifications.KeysUnique(rows0) ==> Notifications.KeysUnique(notifications.rows)
    {
      ghost var before := notifications.rows;
      NotifyOne(notifications, m, users[i], users, memberships, now);
      MentionStep(rows0, before, notifications.rows, m, users, receives, i);
      i := i + 1;
    }
  }

  /** The loop invariants of `CreateMentionNotifications` carry over one turn, from `before` to `after`. */
  lemma MentionStep(rows0: seq<Notifications.Notification>, before: seq<Notifications.Notification>,
                    after: seq<Notifications.Notification>, m: Messages.Message, users: seq<Users.User>,
                    receives: set<nat>, i: nat)
    requires i < |users|
    requires |rows0| <= |before| && before[..|rows0|] == rows0
    requires forall j :: 0 <= j < i && Notified(users, m.userId, receives, users[j].id) ==>
      Notifications.HasKey(before, users[j].id, m.userId, m.id, Notifications.Mention)
    requires forall k :: |rows0| <= k < |before| ==> IsNewMention(before[k], m, users, receives, rows0)
    requires Notified(users, m.userId, receives, users[i].id) ==>
      Notifications.HasKey(after, users[i].id, m.userId, m.id, Notifications.Mention)
    requires |before| <= |after| <= |before| + 1 && after[..|before|] == before
    requires |after| > |before| ==> IsNewMention(after[|before|], m, users, receives, before)
    ensures |rows0| <= |after| && after[..|rows0|] == rows0
    ensures forall j :: 0 <= j < i + 1 && Notified(users, m.userId, receives, users[j].id) ==>
      Notifications.HasKey(after, users[j].id, m.userId, m.id, Notifications.Mention)
    ensures forall k :: |rows0| <= k < |after| ==> IsNewMention(after[k], m, users, receives, rows0)
  {
    PrefixKeepsKeys(before, after);
    PrefixKeepsKeys(rows0, before);
    assert after[..|before|][..|rows0|] == rows0;
    forall k | |rows0| <= k < |after| ensures IsNewMention(after[k], m, users, receives, rows0) {
      if k < |before| {
        assert after[k] == before[k];
      }
    }
  }

  /** A notification a mention added: for the message, from its author, to a notified user, under a new key. */
  predicate IsNewMention(n: Notifications.Notification, m: Messages.Message, users: seq<Users.User>, receives: set<nat>,
                         rows0: seq<Notifications.Notification>) {
    n.actorId == m.userId && n.messageId == m.id && n.notificationType == Notifications.Mention
    && n.readAt.None? && Notified(users, m.userId, receives, n.userId)
    && !Notifications.HasKey(rows0, n.userId, m.userId, m.id, Notifications.Mention)
  }

  /** One turn of the loop above, for the mentioned user `u`. */
  method NotifyOne(notifications: Notifications.NotificationTable, m: Messages.Message, u: Users.User,
                   users: seq<Users.User>, memberships: seq<Memberships.Membership>, now: int)
    requires notifications.Valid() && u in users
    modifies notifications
    ensures notifications.Valid()
    ensures Notified(users, m.userId, Memberships.Receivers(memberships, m.chatId), u.id) ==>
      Notifications.HasKey(notifications.rows, u.id, m.userId, m.id, Notifications.Mention)
    ensures |old(notifications.rows)| <= |notifications.rows| <= |old(notifications.rows)| + 1
    ensures notifications.rows[..|old(notifications.rows)|] == old(notifications.rows)
    ensures |notifications.rows| > |old(notifications.rows)| ==>
      IsNewMention(notifications.rows[|old(notifications.rows)|], m, users, Memberships.Receivers(memberships, m.chatId), old(notifications.rows))
    ensures Notifications.KeysUnique(old(notifications.rows)) ==> Notifications.KeysUnique(notifications.rows)
  {
    if u.id == m.userId || u.id !in Memberships.Receivers(memberships, m.chatId)
       || Notifications.HasKey(notifications.rows, u.id, m.userId, m.id, Notifications.Mention) {
      return;
    }
    ghost var before := notifications.rows;
    var n, event := notifications.Create(u.id, m.userId, m.id, Notifications.Mention, now);
    AppendedKeeps(before, n.value, u.id, m.userId, m.id, Notifications.Mention);
    assert notifications.rows[|before|] == n.value;
  }

  /** Extending the table keeps every dedup key present. */
  lemma PrefixKeepsKeys(rows0: seq<Notifications.Notification>, rows: seq<Notifications.Notification>)
    requires |rows0| <= |rows| && rows[..|rows0|] == rows0
    ensures forall u, a, msg, ty :: Notifications.HasKey(rows0, u, a, msg, ty) ==> Notifications.HasKey(rows, u, a, msg, ty)
  {
    forall u, a, msg, ty | Notifications.HasKey(rows0, u, a, msg, ty) ensures Notifications.HasKey(rows, u, a, msg, ty) {
      var k :| 0 <= k < |rows0| && rows0[k].userId == u && rows0[k].actorId == a
               && rows0[k].messageId == msg && rows0[k].notificationType == ty;
      assert rows[k] == rows0[k];
    }
  }

  /** Appending a notification under a fresh key keeps every key present and keeps keys unique. */
  lemma AppendedKeeps(before: seq<Notifications.Notification>, n: Notifications.Notification,
                      userId: nat, actorId: nat, messageId: nat, t: string)
    requires n.userId == userId && n.actorId == actorId && n.messageId == messageId && n.notificationType == t
    requires !Notifications.HasKey(before, userId, actorId, messageId, t)
    ensures forall u, a, msg, ty :: Notifications.HasKey(before, u, a, msg, ty) ==> Notifications.HasKey(before + [n], u, a, msg, ty)
    ensures Notifications.HasKey(before + [n], userId, actorId, messageId, t)
    ensures Notifications.KeysUnique(before) ==> Notifications.KeysUnique(before + [n])
  {
    var after := before + [n];
    assert after[|before|] == n;
    forall u, a, msg, ty | Notifications.HasKey(before, u, a, msg, ty) ensures Notifications.HasKey(after, u, a, msg, ty) {
      var k :| 0 <= k < |before| && before[k].userId == u && before[k].actorId == a
               && before[k].messageId == msg && before[k].notificationType == ty;
      assert after[k] == before[k];
    }
  }

  /**
   * `process`: the names are matched against the members of the message's chat (`users` with a
   * membership of `m.chatId`). Nothing is written when the content is blank, holds no mention, or
   * mentions no member of the chat; otherwise the message's `mentioned_user_ids` become the
   * matched members' ids and one mention notification is added for each matched member, other
   * than the author, who receives the chat's notifications. Nothing ever clears the column.
   */
  method Process(messages: Messages.MessageTable, notifications: Notifications.NotificationTable, m: Messages.Message,
                 users: seq<Users.User>, memberships: seq<Memberships.Membership>, now: int)
    requires messages.Valid() && notifications.Valid()
    modifies messages, notifications
    ensures messages.Valid() && notifications.Valid()
    ensures var mentioned := FindMentionedUsers(Chats.MembersOf(users, memberships, m.chatId), ExtractNames(m.content));
      var receives := Memberships.Receivers(memberships, m.chatId);
      if IsBlank(m.content) || mentioned == [] then
        messages.rows == old(messages.rows) && notifications.rows == old(notifications.rows)
      else
        (match old(messages.IndexOf(m.id))
         case None => messages.rows == old(messages.rows)
         case Some(i) => messages.rows == old(messages.rows)[i := old(messages.rows)[i].(mentionedUserIds := IdsOf(mentioned))])
        && (forall u | u in mentioned && Notified(mentioned, m.userId, receives, u.id) ::
              Notifications.HasKey(notifications.rows, u.id, m.userId, m.id, Notifications.Mention))
        && |old(notifications.rows)| <= |notifications.rows|
        && notifications.rows[..|old(notifications.rows)|] == old(notifications.rows)
        && (forall k :: |old(notifications.rows)| <= k < |notifications.rows| ==>
              IsNewMention(notifications.rows[k], m, mentioned, receives, old(notifications.rows)))
    ensures forall u :: u in FindMentionedUsers(Chats.MembersOf(users, memberships, m.chatId), ExtractNames(m.content)) ==>
      Memberships.IsMember(memberships, m.chatId, u.id)
    ensures Notifications.KeysUnique(old(notifications.rows)) ==> Notifications.KeysUnique(notifications.rows)
  {
    if IsBlank(m.content) {
      return;
    }
    var names := ExtractNames(m.content);
    if names == [] {
      return;
    }
    var mentioned := FindMentionedUsers(Chats.MembersOf(users, memberships, m.chatId), names);
    if mentioned == [] {
      return;
    }
    messages.SetMentionedUserIds(m.id, IdsOf(mentioned));
    CreateMentionNotifications(notifications, m, mentioned, memberships, now);
  }

  const OpenTag: string := "<span class=\"mention\">"
  const CloseTag: string := "</span>"

  /**
   * The `gsub` of the highlighter from `i`: each match whose first word is one of `names` is
   * wrapped in a mention span; other matches and all other text are copied.
   */
  function Highlight(s: string, i: nat, names: set<string>): string
    requires i <= |s|
    decreases |s| - i
  {
    if i == |s| then []
    else match MatchAt(s, i)
      case Some(m) =>
        (if s[i + 1..m.wordEnd] in names then OpenTag + s[i..m.end] + CloseTag else s[i..m.end])
        + Highlight(s, m.end, names)
      case None => [s[i]] + Highlight(s, i + 1, names)
  }

  /** Removes every mention span's tags, keeping what they enclose. */
  function StripSpans(t: string): string
    decreases |t|
  {
    if t == [] then []
    else if StartsWith(t, OpenTag) then StripSpans(t[|OpenTag|..])
    else if StartsWith(t, CloseTag) then StripSpans(t[|CloseTag|..])
    else [t[0]] + StripSpans(t[1..])
  }

  predicate NoMarkup(s: string) {
    forall k :: 0 <= k < |s| ==> s[k] != '<'
  }

  /** Text without a "<" passes through the tag removal untouched. */
  lemma {:induction false} StripPlain(x: string, y: string)
    requires NoMarkup(x)
    ensures StripSpans(x + y) == x + StripSpans(y)
  {
    if x != [] {
      var t := x + y;
      assert t[0] == '<' ==> false;
      assert !StartsWith(t, OpenTag) && !StartsWith(t, CloseTag);
      assert t[1..] == x[1..] + y;
      StripPlain(x[1..], y);
    } else {
      assert x + y == y;
    }
  }

  /** On text without markup, removing the spans the highlighter adds gives the text back. */
  lemma {:induction false} HighlightStrips(s: string, i: nat, names: set<string>)
    requires i <= |s| && NoMarkup(s)
    ensures StripSpans(Highlight(s, i, names)) == s[i..]
    decreases |s| - i
  {
    if i < |s| {
      match MatchAt(s, i)
      case Some(m) =>
        HighlightStrips(s, m.end, names);
        HighlightStripsMatch(s, i, m, names);
      case None =>
        HighlightStrips(s, i + 1, names);
        assert Highlight(s, i, names) == [s[i]] + Highlight(s, i + 1, names);
        StripPlain([s[i]], Highlight(s, i + 1, names));
        assert s[i..] == [s[i]] + s[i + 1..];
    }
  }

  /** The step of the lemma above at a match. */
  lemma HighlightStripsMatch(s: string, i: nat, m: Match, names: set<string>)
    requires i < |s| && NoMarkup(s) && MatchAt(s, i) == Some(m)
    requires StripSpans(Highlight(s, m.end, names)) == s[m.end..]
    ensures StripSpans(Highlight(s, i, names)) == s[i..]
  {
    HighlightAtMatch(s, i, m, names);
    NoMarkupSlice(s, i, m.end);
    var h := Highlight(s, i, names);
    StripAfterPiece(h, s[i..m.end], Highlight(s, m.end, names), s[i + 1..m.wordEnd] in names, s[m.end..]);
    CopiedThen(StripSpans(h), s, i, m.end, s[m.end..]);
  }

  /** A piece, wrapped or not, followed by text that strips to `tail`, strips to the piece and `tail`. */
  lemma StripAfterPiece(h: string, piece: string, rest: string, wrap: bool, tail: string)
    requires NoMarkup(piece) && StripSpans(rest) == tail
    requires h == (if wrap then OpenTag + piece + CloseTag else piece) + rest
    ensures StripSpans(h) == piece + tail
  {
    StripPiece(piece, rest, wrap);
  }

  /** Unfolding the highlighter once at a match. */
  lemma HighlightAtMatch(s: string, i: nat, m: Match, names: set<string>)
    requires i < |s| && MatchAt(s, i) == Some(m)
    ensures Highlight(s, i, names) ==
      (if s[i + 1..m.wordEnd] in names then OpenTag + s[i..m.end] + CloseTag else s[i..m.end]) + Highlight(s, m.end, names)
  {
  }

  lemma NoMarkupSlice(s: string, a: nat, b: nat)
    requires a <= b <= |s| && NoMarkup(s)
    ensures NoMarkup(s[a..b])
  {
    assert forall k :: 0 <= k < b - a ==> s[a..b][k] == s[a + k];
  }

  /** Removing the tags from a piece, wrapped or not, and what follows. */
  lemma StripPiece(piece: string, rest: string, wrap: bool)
    requires NoMarkup(piece)
    ensures StripSpans((if wrap then OpenTag + piece + CloseTag else piece) + rest) == piece + StripSpans(rest)
  {
    if wrap {
      StripWrapped(piece, rest);
    } else {
      StripPlain(piece, rest);
    }
  }

  /** Removing the tags around a wrapped mention leaves the mention. */
  lemma StripWrapped(piece: string, rest: string)
    requires NoMarkup(piece)
    ensures StripSpans(OpenTag + piece + CloseTag + rest) == piece + StripSpans(rest)
  {
    var t := OpenTag + piece + CloseTag + rest;
    assert t[..|OpenTag|] == OpenTag;
    assert t[|OpenTag|..] == piece + (CloseTag + rest);
    StripPlain(piece, CloseTag + rest);
    var c := CloseTag + rest;
    assert c[1] == '/' && OpenTag[1] == 's';
    assert !StartsWith(c, OpenTag);
    assert c[..|CloseTag|] == CloseTag;
    assert c[|CloseTag|..] == rest;
  }

  /** When no extracted name is among `names`, the highlighter changes nothing. */
  lemma {:induction false} HighlightUnmatched(s: string, i: nat, names: set<string>)
    requires i <= |s|
    requires forall n | n in NamesFrom(s, i) :: n !in names
    ensures Highlight(s, i, names) == s[i..]
    decreases |s| - i
  {
    if i < |s| {
      match MatchAt(s, i)
      case Some(m) =>
        NamesAtMatch(s, i, m);
        HighlightUnmatched(s, m.end, names);
        HighlightAtMatch(s, i, m, names);
        CopiedThen(Highlight(s, i, names), s, i, m.end, Highlight(s, m.end, names));
      case None =>
        assert NamesFrom(s, i) == NamesFrom(s, i + 1);
        HighlightUnmatched(s, i + 1, names);
        assert Highlight(s, i, names) == [s[i]] + Highlight(s, i + 1, names);
        CopiedThen(Highlight(s, i, names), s, i, i + 1, Highlight(s, i + 1, names));
    }
  }

  /** Text that copies `s[a..b]` and then reads like the rest of `s` from `b` reads like `s` from `a`. */
  lemma CopiedThen(h: string, s: string, a: nat, b: nat, rest: string)
    requires a <= b <= |s| && rest == s[b..] && h == s[a..b] + rest
    ensures h == s[a..]
  {
    assert s[a..] == s[a..b] + s[b..];
  }

  /** Unfolding the name extraction once at a match: its name, then the names after it. */
  lemma NamesAtMatch(s: string, i: nat, m: Match)
    requires i < |s| && MatchAt(s, i) == Some(m)
    ensures NamesFrom(s, i) == [s[i + 1..m.wordEnd]] + NamesFrom(s, m.end)
    ensures s[i + 1..m.wordEnd] in NamesFrom(s, i)
    ensures forall n | n in NamesFrom(s, m.end) :: n in NamesFrom(s, i)
  {
  }

  /** What the renderer relies on: the spans strip off, and nothing is wrapped without a matching name. */
  lemma HighlightFacts(escaped: string, names: set<string>)
    requires NoMarkup(escaped)
    ensures StripSpans(Highlight(escaped, 0, names)) == escaped
    ensures (forall n | n in ExtractNames(escaped) :: n !in names) ==> Highlight(escaped, 0, names) == escaped
  {
    HighlightStrips(escaped, 0, names);
    assert escaped[0..] == escaped;
    if forall n | n in ExtractNames(escaped) :: n !in names {
      HighlightUnmatched(escaped, 0, names);
    }
  }

  /** The first names of the stored users among the mentioned ids (`index_by(&:first_name)`). */
  function MentionedNames(users: seq<Users.User>, mentionedIds: seq<nat>): set<string> {
    set u | u in users && u.id in mentionedIds :: u.firstName
  }

  /**
   * `render_with_highlights`: blank content comes back as it is; without mentioned ids the
   * content is only escaped; otherwise it is escaped first and then the mentions of
   * mentioned users are wrapped, so removing the spans gives exactly the escaped content, and
   * without any such mention the result is just the escaped content.
   */
  function RenderWithHighlights(content: string, mentionedIds: seq<nat>, users: seq<Users.User>): (r: string)
    ensures IsBlank(content) ==> r == content
    ensures !IsBlank(content) && mentionedIds == [] ==> r == HtmlEscape(content)
    ensures !IsBlank(content) ==> StripSpans(r) == HtmlEscape(content)
    ensures !IsBlank(content) && (forall n | n in ExtractNames(HtmlEscape(content)) :: n !in MentionedNames(users, mentionedIds))
            ==> r == HtmlEscape(content)
  {
    if IsBlank(content) then content
    else
      var escaped := HtmlEscape(content);
      var names := MentionedNames(users, mentionedIds);
      HighlightFacts(escaped, names);
      HighlightFacts(escaped, {});
      if mentionedIds == [] then escaped else Highlight(escaped, 0, names)
  }

  /** No "@" and none of the characters `html_escape` rewrites. */
  predicate Plain(s: string) {
    forall k :: 0 <= k < |s| ==> s[k] != '@' && s[k] !in "&<>\"'"
  }

  /**
   * A mention of a mentioned user is wrapped in the mention span: in text with no other "@"
   * and no characters to escape, where the name is not followed by more letters or a space,
   * the rendering is the text with exactly that mention enclosed in the span.
   */
  lemma RenderWrapsMention(p: string, n: string, q: string, mentionedIds: seq<nat>, users: seq<Users.User>)
    requires IsName(n) && n in MentionedNames(users, mentionedIds) && mentionedIds != []
    requires Plain(p) && Plain(q)
    requires q == [] || (!IsLower(q[0]) && !IsSpace(q[0]))
    ensures RenderWithHighlights(p + "@" + n + q, mentionedIds, users) == p + OpenTag + "@" + n + CloseTag + q
  {
    var s := p + "@" + n + q;
    assert s[|p|] == '@' && !IsSpace(s[|p|]);
    assert !IsBlank(s);
    MentionEscapesPlain(s, p, n, q);
    MentionWrapped(s, p, n, q, MentionedNames(users, mentionedIds));
  }

  /** Plain text around a mention has nothing for `html_escape` to rewrite. */
  lemma MentionEscapesPlain(s: string, p: string, n: string, q: string)
    requires IsName(n) && s == p + "@" + n + q && Plain(p) && Plain(q)
    ensures HtmlEscape(s) == s
  {
    var j := |p|;
    var e := |p| + 1 + |n|;
    forall k | 0 <= k < |s| ensures s[k] !in "&<>\"'" {
      if k < j {
        assert s[k] == p[k];
      } else if k == j {
      } else if k < e {
        assert s[k] == n[k - j - 1];
        assert IsUpper(s[k]) || IsLower(s[k]);
      } else {
        assert s[k] == q[k - e];
      }
    }
    HtmlEscapePlain(s);
  }

  /** The highlighter wraps the one mention of a listed name and copies the text around it. */
  lemma HighlightWraps(s: string, j: nat, e: nat, names: set<string>)
    requires j < e <= |s| && MatchAt(s, j) == Some(Match(e, e)) && s[j + 1..e] in names
    requires forall k :: 0 <= k < j ==> s[k] != '@'
    requires forall k :: e <= k < |s| ==> s[k] != '@'
    ensures Highlight(s, 0, names) == s[..j] + OpenTag + s[j..e] + CloseTag + s[e..]
  {
    HighlightSkips(s, 0, j, names);
    HighlightAtMatch(s, j, Match(e, e), names);
    HighlightSkips(s, e, |s|, names);
    Splice(Highlight(s, 0, names), Highlight(s, j, names), Highlight(s, e, names), Highlight(s, |s|, names),
      s[0..j], s[j..e], s[e..|s|]);
  }

  /** Reassembles the three pieces of a highlighted text. */
  lemma Splice(a: string, b: string, c: string, d: string, x: string, y: string, z: string)
    requires a == x + b && b == OpenTag + y + CloseTag + c && c == z + d && d == []
    ensures a == x + OpenTag + y + CloseTag + z
  {
  }

  /** The mention "@n" between plain text is the only place the highlighter changes. */
  lemma MentionWrapped(s: string, p: string, n: string, q: string, names: set<string>)
    requires IsName(n) && n in names && s == p + "@" + n + q && Plain(p) && Plain(q)
    requires q == [] || (!IsLower(q[0]) && !IsSpace(q[0]))
    ensures Highlight(s, 0, names) == p + OpenTag + "@" + n + CloseTag + q
  {
    var e := |p| + 1 + |n|;
    MentionMatch(s, p, n, q);
    MentionSlices(s, p, n, q);
    forall k | 0 <= k < |p| ensures s[k] != '@' {
      assert s[k] == p[k];
    }
    forall k | e <= k < |s| ensures s[k] != '@' {
      assert s[k] == q[k - e];
    }
    HighlightWraps(s, |p|, e, names);
  }

  lemma MentionSlices(s: string, p: string, n: string, q: string)
    requires s == p + "@" + n + q
    ensures s[|p| + 1..|p| + 1 + |n|] == n && s[|p|..|p| + 1 + |n|] == "@" + n
    ensures s[..|p|] == p && s[|p| + 1 + |n|..] == q
  {
  }

  /** The text of `p + "@" + n + q` has exactly the mention "@n" at `|p|`, with no second word. */
  lemma MentionMatch(s: string, p: string, n: string, q: string)
    requires IsName(n) && s == p + "@" + n + q
    requires q == [] || (!IsLower(q[0]) && !IsSpace(q[0]))
    ensures MatchAt(s, |p|) == Some(Match(|p| + 1 + |n|, |p| + 1 + |n|))
  {
    var j := |p|;
    var e := |p| + 1 + |n|;
    assert forall k :: j + 1 <= k < e ==> s[k] == n[k - j - 1];
    assert StartsMatch(s, j);
    var w := LowerRunEnd(s, j + 2);
    assert forall k :: j + 2 <= k < e ==> IsLower(s[k]);
    assert e == |s| || (s[e] == q[0] && !IsLower(s[e]) && !IsSpace(s[e]));
    assert w == e;
    assert SpaceRunEnd(s, w) == w;
  }

  /** Text without an "@" is copied by the highlighter as it is. */
  lemma {:induction false} HighlightSkips(s: string, i: nat, j: nat, names: set<string>)
    requires i <= j <= |s|
    requires forall k :: i <= k < j ==> s[k] != '@'
    ensures Highlight(s, i, names) == s[i..j] + Highlight(s, j, names)
    decreases j - i
  {
    if i < j {
      HighlightCopiesAt(s, i, names);
      HighlightSkips(s, i + 1, j, names);
      ConsSlice(s, i, j);
      Prepend(Highlight(s, i, names), Highlight(s, i + 1, names), Highlight(s, j, names), s[i], s[i + 1..j]);
    }
  }

  lemma ConsSlice(s: string, i: nat, j: nat)
    requires i < j <= |s|
    ensures s[i..j] == [s[i]] + s[i + 1..j]
  {
  }

  lemma Prepend(a: string, b: string, h: string, x: char, t: string)
    requires a == [x] + b && b == t + h
    ensures a == ([x] + t) + h
  {
  }

  /** A character other than "@" is copied on its own. */
  lemma HighlightCopiesAt(s: string, i: nat, names: set<string>)
    requires i < |s| && s[i] != '@'
    ensures Highlight(s, i, names) == [s[i]] + Highlight(s, i + 1, names)
  {
    assert !StartsMatch(s, i);
    assert MatchAt(s, i) == None;
  }
}
