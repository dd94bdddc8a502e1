/**
 * The chat sidebar in the browser: one subscription and one typing map per listed chat, the
 * last-message preview and unread badge that incoming messages update, and the highlighted
 * (active) chat, chosen by a click or by the URL after the conversation frame loads.
 */
module ChatList {
  import opened Wrappers
  import opened Text
  import Typing
  import ChatChannel

  /** `handleMessagePreview`'s label: "You" for the viewer's own messages, the sender's first name otherwise. */
  function SenderLabel(senderId: nat, me: nat, senderName: string): (r: string)
    ensures senderId == me ==> r == "You"
    ensures senderId != me ==> r == senderName
  {
    if senderId == me then "You" else senderName
  }

  /** An empty preview (a message with only attachments) is shown as the attachment placeholder. */
  function PreviewLine(preview: string): (r: string)
    ensures preview != "" ==> r == preview
    ensures preview == "" ==> r == ChatChannel.AttachmentPlaceholder
  {
    if preview == "" then ChatChannel.AttachmentPlaceholder else preview
  }

  const HtmlHead: string := "\n      <p class=\"text-xs text-theme-secondary truncate\">\n        <span class=\"text-theme-text\">"
  const HtmlMiddle: string := ":</span>\n        "
  const HtmlTail: string := "\n      </p>\n    "

  /** The preview markup as written: the preview text is escaped, the sender label is not. */
  function PreviewHtmlAsWritten(sender: string, text: string): string {
    HtmlHead + sender + HtmlMiddle + HtmlEscape(text) + HtmlTail
  }

  /** The preview markup with both interpolated values escaped. */
  function PreviewHtml(sender: string, text: string): string {
    HtmlHead + HtmlEscape(sender) + HtmlMiddle + HtmlEscape(text) + HtmlTail
  }

  /** Where the pieces of a five-part concatenation lie, and that two `<`-free pieces stay so. */
  lemma Layout(head: string, x: string, mid: string, y: string, tail: string)
    requires forall i :: 0 <= i < |x| ==> x[i] != '<'
    requires forall i :: 0 <= i < |y| ==> y[i] != '<'
    ensures var h := head + x + mid + y + tail;
      var a := |head|;
      var b := a + |x| + |mid|;
      h[..a] == head
      && (forall i :: a <= i < a + |x| ==> h[i] != '<')
      && h[a + |x|..b] == mid
      && (forall i :: b <= i < b + |y| ==> h[i] != '<')
      && h[b + |y|..] == tail
  {
    var h := head + x + mid + y + tail;
    var a := |head|;
    var b := a + |x| + |mid|;
    forall i | a <= i < a + |x| ensures h[i] != '<' {
      assert h[i] == x[i - a];
    }
    forall i | b <= i < b + |y| ensures h[i] != '<' {
      assert h[i] == y[i - b];
    }
  }

  /**
   * With both values escaped, no tag starts inside either of them: every `<` in the markup
   * belongs to the template, whatever the sender's name and the message say.
   */
  lemma PreviewHtmlEscaped(sender: string, text: string)
    ensures var h := PreviewHtml(sender, text);
      var a := |HtmlHead|;
      var b := a + |HtmlEscape(sender)| + |HtmlMiddle|;
      h[..a] == HtmlHead
      && (forall i :: a <= i < a + |HtmlEscape(sender)| ==> h[i] != '<')
      && h[a + |HtmlEscape(sender)|..b] == HtmlMiddle
      && (forall i :: b <= i < b + |HtmlEscape(text)| ==> h[i] != '<')
      && h[b + |HtmlEscape(text)|..] == HtmlTail
  {
    var x, y := HtmlEscape(sender), HtmlEscape(text);
    Layout(HtmlHead, x, HtmlMiddle, y, HtmlTail);
    assert PreviewHtml(sender, text) == HtmlHead + x + HtmlMiddle + y + HtmlTail;
  }

  /** As written, a sender whose first name holds a tag opens that tag in every member's sidebar. */
  lemma PreviewHtmlInjects()
    ensures PreviewHtmlAsWritten("<b>", "")[|HtmlHead|] == '<'
  {
    assert PreviewHtmlAsWritten("<b>", "") == HtmlHead + "<b>" + HtmlMiddle + HtmlEscape("") + HtmlTail;
  }

  /**
   * `showUnreadBadge`: a missing badge is created showing 1; an existing one is read with
   * `parseInt` (0 when unreadable), incremented, and shown as "99+" above 99.
   */
  function BumpedBadge(badge: Option<string>): (r: string)
    ensures badge.None? ==> r == "1"
  {
    match badge
    case None => "1"
    case Some(t) =>
      var count := match ParseInt(t) case None => 0 case Some(v) => v;
      if count + 1 > 99 then "99+" else IntToString(count + 1)
  }

  /** Below 99 a badge counts up by one, and from 99 on it reads "99+". */
  lemma BadgeCounts(n: nat)
    ensures n < 99 ==> BumpedBadge(Some(NatToString(n))) == NatToString(n + 1)
    ensures n >= 99 ==> BumpedBadge(Some(NatToString(n))) == "99+"
  {
    ParseIntOfNatToString(n, "");
    assert NatToString(n) + "" == NatToString(n);
  }

  /** "99+" reads back as 99, so a full badge stays "99+". */
  lemma BadgeSaturates()
    ensures BumpedBadge(Some("99+")) == "99+"
  {
    assert NatToString(99) == "99" by {
      assert NatToString(9) == "9";
    }
    ParseIntOfNatToString(99, "+");
    assert NatToString(99) + "+" == "99+";
  }

  /**
   * The regular expression `/\/chats\/(\d+)/` on the path: the digits after the first
   * "/chats/" that is followed by a digit.
   */
  function PathChatId(path: string): (r: Option<nat>)
    decreases |path|
  {
    if |path| < 8 then None
    else if path[..7] == "/chats/" && IsDigit(path[7]) then Some(DigitsValue(DigitPrefix(path[7..])))
    else PathChatId(path[1..])
  }

  /** A chat's own URL names that chat. */
  lemma PathOfChatUrl(n: nat, rest: string)
    requires rest == [] || !IsDigit(rest[0])
    ensures PathChatId("/chats/" + NatToString(n) + rest) == Some(n)
  {
    var path := "/chats/" + NatToString(n) + rest;
    assert path[..7] == "/chats/";
    assert path[7..] == NatToString(n) + rest;
    assert IsDigit(path[7]);
    DigitPrefixOfDigits(NatToString(n), rest);
    DigitsValueOfNatToString(n);
  }

  /**
   * `handleFrameLoad`'s chat id: a non-empty `active_chat` parameter is read with `parseInt`,
   * otherwise the path is searched; an unreadable value or 0 gives no chat.
   */
  function FrameChatId(activeParam: Option<string>, path: string): (r: Option<int>)
    ensures r != Some(0)
    ensures activeParam.Some? && activeParam.value != "" && ParseInt(activeParam.value).None? ==> r.None?
  {
    var raw: Option<int> :=
      if activeParam.Some? && activeParam.value != "" then ParseInt(activeParam.value)
      else match PathChatId(path) case Some(n) => Some(n) case None => None;
    if raw == Some(0) then None else raw
  }

  /** The `active_chat` parameter wins over the path whenever it is present. */
  lemma {:induction false} ParamTakesPrecedence(param: string, path1: string, path2: string, n: nat)
    requires param != ""
    ensures FrameChatId(Some(param), path1) == FrameChatId(Some(param), path2)
    ensures n > 0 ==> FrameChatId(Some(NatToString(n)), path1) == Some(n)
    ensures n > 0 ==> FrameChatId(None, "/chats/" + NatToString(n)) == Some(n)
  {
    ParseIntOfNatToString(n, "");
    assert NatToString(n) + "" == NatToString(n);
    PathOfChatUrl(n, "");
    assert "/chats/" + NatToString(n) + "" == "/chats/" + NatToString(n);
  }

  /** The sidebar controller's state. */
  class Sidebar {
    const me: nat
    const items: seq<nat>
    var subscriptions: set<nat>
    var typing: map<nat, seq<Typing.Typer>>
    var active: Option<nat>
    var badges: map<nat, string>
    var previews: map<nat, string>

    /** One typing map per subscribed chat, each a map. */
    ghost predicate Valid()
      reads this
    {
      typing.Keys == subscriptions && forall c | c in typing :: Typing.UniqueUsers(typing[c])
    }

    constructor (me: nat, items: seq<nat>)
      ensures Valid() && this.me == me && this.items == items
      ensures subscriptions == {} && typing == map[] && active.None? && badges == map[] && previews == map[]
    {
      this.me := me;
      this.items := items;
      subscriptions := {};
      typing := map[];
      active := None;
      badges := map[];
      previews := map[];
    }

    /** `subscribeToChat`: a chat already subscribed is left alone; a new one gets an empty typing map. */
    method SubscribeToChat(chatId: nat)
      requires Valid()
      modifies this
      ensures Valid()
      ensures subscriptions == old(subscriptions) + {chatId}
      ensures typing == if chatId in old(subscriptions) then old(typing) else old(typing)[chatId := []]
      ensures active == old(active) && badges == old(badges) && previews == old(previews)
    {
      if chatId in subscriptions {
        return;
      }
      subscriptions := subscriptions + {chatId};
      typing := typing[chatId := []];
    }

    /** `connect`: every listed chat with a non-zero id is subscribed to, with nobody typing yet. */
    method Connect()
      requires Valid() && subscriptions == {} && typing == map[]
      modifies this
      ensures Valid()
      ensures subscriptions == set c | c in items && c != 0
      ensures forall c | c in typing :: typing[c] == []
      ensures active == old(active) && badges == old(badges) && previews == old(previews)
    {
      var i := 0;
      while i < |items|
        invariant 0 <= i <= |items|
        invariant Valid()
        invariant subscriptions == set j | 0 <= j < i && items[j] != 0 :: items[j]
        invariant forall c | c in typing :: typing[c] == []
        invariant active == old(active) && badges == old(badges) && previews == old(previews)
      {
        if items[i] != 0 {
          SubscribeToChat(items[i]);
        }
        i := i + 1;
      }
      assert forall c :: c in subscriptions <==> c in items && c != 0 by {
        forall c ensures c in subscriptions <==> c in items && c != 0 {
          if c in items && c != 0 {
            var j :| 0 <= j < |items| && items[j] == c;
          }
        }
      }
    }

    /**
     * `handleTypingIndicator`: the viewer's own events and events for chats without a typing
     * map are ignored; otherwise only that chat's map changes, by the shared typing rules.
     */
    method HandleTyping(chatId: nat, userId: nat, name: string, isTyping: bool, now: int)
      requires Valid()
      modifies this
      ensures Valid()
      ensures typing ==
        if userId == me || chatId !in old(typing) then old(typing)
        else old(typing)[chatId := Typing.Received(old(typing)[chatId], me, userId, name, isTyping, now)]
      ensures subscriptions == old(subscriptions) && active == old(active) && badges == old(badges)
      ensures previews == old(previews)
    {
      if userId == me || chatId !in typing {
        return;
      }
      Typing.ReceivedEntries(typing[chatId], me, userId, name, isTyping, now, userId);
      typing := typing[chatId := Typing.Received(typing[chatId], me, userId, name, isTyping, now)];
    }

    /** The removal timers due by `now` fire, in every chat. */
    method TimersFire(now: int)
      requires Valid()
      modifies this
      ensures Valid()
      ensures typing == map c | c in old(typing) :: Typing.Expired(old(typing)[c], now)
      ensures subscriptions == old(subscriptions) && active == old(active) && badges == old(badges)
      ensures previews == old(previews)
    {
      forall c | c in typing ensures Typing.UniqueUsers(Typing.Expired(typing[c], now)) {
        Typing.ExpiredKeepsUnique(typing[c], now);
      }
      typing := map c | c in typing :: Typing.Expired(typing[c], now);
    }

    /** `updateChatItem`: the typing text shown in place of the preview, or `None` to show the preview. */
    function ItemTypingText(chatId: nat): (r: Option<string>)
      reads this
      ensures r.None? <==> chatId !in typing || typing[chatId] == []
    {
      if chatId in typing then Typing.IndicatorText(Typing.Names(typing[chatId])) else None
    }

    /**
     * `handleMessagePreview`: for a listed chat, the preview is replaced, and a message from
     * someone else in a chat that is not active bumps its badge.
     */
    method HandleMessagePreview(chatId: nat, senderId: nat, senderName: string, preview: string)
      requires Valid()
      modifies this
      ensures Valid()
      ensures chatId !in items ==> previews == old(previews) && badges == old(badges)
      ensures chatId in items ==>
        previews == old(previews)[chatId := PreviewHtmlAsWritten(SenderLabel(senderId, me, senderName), PreviewLine(preview))]
        && badges == if senderId != me && active != Some(chatId)
                     then old(badges)[chatId := BumpedBadge(if chatId in old(badges) then Some(old(badges)[chatId]) else None)]
                     else old(badges)
      ensures typing == old(typing) && subscriptions == old(subscriptions) && active == old(active)
    {
      if chatId !in items {
        return;
      }
      previews := previews[chatId := PreviewHtmlAsWritten(SenderLabel(senderId, me, senderName), PreviewLine(preview))];
      if senderId != me && active != Some(chatId) {
        badges := badges[chatId := BumpedBadge(if chatId in badges then Some(badges[chatId]) else None)];
      }
    }

    /** `setActiveChat`: exactly this chat is highlighted, and its badge is removed. */
    method SetActiveChat(chatId: nat)
      requires Valid() && chatId in items
      modifies this
      ensures Valid()
      ensures active == Some(chatId) && badges == old(badges) - {chatId}
      ensures typing == old(typing) && subscriptions == old(subscriptions) && previews == old(previews)
    {
      active := Some(chatId);
      badges := badges - {chatId};
    }

    /**
     * `handleFrameLoad`: after the conversation frame loads, the chat named by the URL is made
     * active when it is listed; any other frame, or a URL naming no listed chat, changes nothing.
     */
    method HandleFrameLoad(frameId: string, activeParam: Option<string>, path: string)
      requires Valid()
      modifies this
      ensures Valid()
      ensures var id := FrameChatId(activeParam, path);
        if frameId == "chat_conversation" && id.Some? && id.value >= 0 && id.value as nat in items then
          active == Some(id.value as nat) && badges == old(badges) - {id.value as nat}
        else
          active == old(active) && badges == old(badges)
      ensures typing == old(typing) && subscriptions == old(subscriptions) && previews == old(previews)
    {
      if frameId != "chat_conversation" {
        return;
      }
      var id := FrameChatId(activeParam, path);
      if id.Some? && id.value >= 0 && id.value as nat in items {
        SetActiveChat(id.value as nat);
      }
    }
  }
}
