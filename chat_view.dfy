/**
 * The open conversation in the browser: the typing indicator fed by the chat's stream, the
 * sender's own typing signals driven by keystrokes and two timers, the Enter key, and the
 * reply box. Timers are modelled by a logical clock: a method stands for the moment a timer
 * fires.
 */
module ChatView {
  import opened Wrappers
  import opened Text
  import Typing
  import ChatChannel

  /** The indicator above the input: who else is typing in this chat. */
  class TypingIndicator {
    const me: nat
    var typers: seq<Typing.Typer>

    ghost predicate Valid()
      reads this
    {
      Typing.UniqueUsers(typers)
    }

    constructor (me: nat)
      ensures Valid() && this.me == me && typers == []
    {
      this.me := me;
      typers := [];
    }

    /** A `typing` event from the stream (`handleTypingIndicator`). */
    method Receive(userId: nat, name: string, isTyping: bool, now: int)
      requires Valid()
      modifies this
      ensures Valid()
      ensures typers == Typing.Received(old(typers), me, userId, name, isTyping, now)
      ensures forall v :: (Typing.Entry(typers, v) ==
                           if v != userId || userId == me then Typing.Entry(old(typers), v)
                           else if isTyping then Some(Typing.Typer(userId, name, now + Typing.Expiry))
                           else None)
    {
      forall v ensures Typing.Entry(Typing.Received(typers, me, userId, name, isTyping, now), v) ==
        if v != userId || userId == me then Typing.Entry(typers, v)
        else if isTyping then Some(Typing.Typer(userId, name, now + Typing.Expiry))
        else None
      {
        Typing.ReceivedEntries(typers, me, userId, name, isTyping, now, v);
      }
      Typing.ReceivedEntries(typers, me, userId, name, isTyping, now, userId);
      typers := Typing.Received(typers, me, userId, name, isTyping, now);
    }

    /** The removal timers due by `now` fire. */
    method TimersFire(now: int)
      requires Valid()
      modifies this
      ensures Valid()
      ensures typers == Typing.Expired(old(typers), now)
    {
      Typing.ExpiredKeepsUnique(typers, now);
      typers := Typing.Expired(typers, now);
    }

    /** `updateTypingIndicator`: the text shown, or `None` when the indicator is hidden. */
    function Text(): (r: Option<string>)
      reads this
      ensures r.None? <==> typers == []
    {
      Typing.IndicatorText(Typing.Names(typers))
    }
  }

  /** Milliseconds without a keystroke before typing stops, and between resends while typing. */
  const StopDelay: int := 2000
  const ResendPeriod: int := 3000

  /**
   * The sender side: the `isTyping` flag, the pending stop timer, the `typingInterval` handle
   * and the signals sent on the channel. `live` counts the resend intervals that are running,
   * including any whose handle has been overwritten.
   */
  class TypingSender {
    var isTyping: bool
    var stopDue: Option<int>
    var handle: bool
    var live: nat
    var sent: seq<bool>

    /** A handle names a running interval. */
    ghost predicate Valid()
      reads this
    {
      handle ==> live >= 1
    }

    /** Every running interval is the one the handle names, and one runs exactly while typing. */
    ghost predicate LeakFree()
      reads this
    {
      live == (if handle then 1 else 0) && handle == isTyping
    }

    constructor ()
      ensures Valid() && LeakFree() && !isTyping && stopDue.None? && sent == [] && !handle && live == 0
    {
      isTyping := false;
      stopDue := None;
      handle := false;
      live := 0;
      sent := [];
    }

    /**
     * `inputChanged`: the first keystroke of a burst sends true and starts the resend interval;
     * every keystroke pushes the stop timer to `now + 2000`.
     */
    method InputChanged(now: int)
      requires Valid()
      modifies this
      ensures Valid()
      ensures isTyping && stopDue == Some(now + StopDelay)
      ensures sent == old(sent) + (if old(isTyping) then [] else [true])
      ensures handle == (old(handle) || !old(isTyping))
      ensures live == old(live) + (if old(isTyping) then 0 else 1)
      ensures old(LeakFree()) ==> LeakFree()
    {
      if !isTyping {
        isTyping := true;
        sent := sent + [true];
        handle := true;
        live := live + 1;
      }
      stopDue := Some(now + StopDelay);
    }

    /** The stop timer fires: typing ends, false is sent, and the interval the handle names stops. */
    method StopTimerFires()
      requires Valid() && stopDue.Some?
      modifies this
      ensures Valid()
      ensures !isTyping && stopDue.None? && !handle
      ensures sent == old(sent) + [false]
      ensures live == if old(handle) then old(live) - 1 else old(live)
      ensures old(LeakFree()) ==> LeakFree() && live == 0
    {
      isTyping := false;
      sent := sent + [false];
      stopDue := None;
      if handle {
        live := live - 1;
        handle := false;
      }
    }

    /** One resend period passes: every running interval sends true, if typing. */
    method IntervalsFire()
      modifies this
      ensures isTyping == old(isTyping) && live == old(live) && handle == old(handle) && stopDue == old(stopDue)
      ensures sent == old(sent) + (if isTyping then seq(live, _ => true) else [])
      ensures LeakFree() ==> |sent| <= |old(sent)| + 1
    {
      if isTyping {
        sent := sent + seq(live, _ => true);
      }
    }

    /**
     * `submitMessage` as written: typing stops (false is sent only if typing) and the stop
     * timer is cancelled, but the resend interval keeps running.
     */
    method SubmitAsWritten()
      requires Valid()
      modifies this
      ensures Valid()
      ensures !isTyping && stopDue.None? && handle == old(handle) && live == old(live)
      ensures sent == old(sent) + (if old(isTyping) then [false] else [])
    {
      if isTyping {
        isTyping := false;
        sent := sent + [false];
      }
      stopDue := None;
    }

    /** `submitMessage` corrected: it also stops the resend interval, as the stop timer does. */
    method Submit()
      requires Valid()
      modifies this
      ensures Valid()
      ensures !isTyping && stopDue.None? && !handle
      ensures sent == old(sent) + (if old(isTyping) then [false] else [])
      ensures old(LeakFree()) ==> LeakFree() && live == 0
    {
      if isTyping {
        isTyping := false;
        sent := sent + [false];
      }
      stopDue := None;
      if handle {
        live := live - 1;
        handle := false;
      }
    }
  }

  /**
   * Keystroke, submit as written, keystroke: two intervals are now running, and one resend
   * period sends typing twice.
   */
  method IntervalLeak() returns (live: nat, resent: nat)
    ensures live == 2 && resent == 2
  {
    var s := new TypingSender();
    s.InputChanged(0);
    s.SubmitAsWritten();
    s.InputChanged(100);
    var before := |s.sent|;
    s.IntervalsFire();
    live := s.live;
    resent := |s.sent| - before;
  }

  /** With the corrected submit, the same keystrokes leave one interval, which resends once. */
  method NoIntervalLeak() returns (live: nat, resent: nat)
    ensures live == 1 && resent == 1
  {
    var s := new TypingSender();
    s.InputChanged(0);
    s.Submit();
    s.InputChanged(100);
    var before := |s.sent|;
    s.IntervalsFire();
    live := s.live;
    resent := |s.sent| - before;
  }

  /** What the Enter key does in the message input. */
  datatype EnterAction = NewLine | Submit | Nothing

  /**
   * `handleEnter`: Shift+Enter inserts a line break; a plain Enter submits when the trimmed
   * input is not empty, or when the file input holds files and the attachment preview shows
   * some; otherwise it does nothing.
   */
  function OnEnter(shift: bool, value: string, files: nat, previews: nat): (a: EnterAction)
    ensures a == NewLine <==> shift
    ensures a == Submit <==> !shift && (!IsBlank(value) || (files > 0 && previews > 0))
    ensures !shift && IsBlank(value) && files == 0 ==> a == Nothing
  {
    if shift then NewLine
    else if !IsBlank(value) || files > 0 then
      if !IsBlank(value) || previews > 0 then Submit else Nothing
    else Nothing
  }

  /** The placeholder as written in `startReply`: the UTF-8 bytes of "📎 Attachment" read as Windows-1252. */
  const MisencodedPlaceholder: string := "\U{F0}\U{178}\U{201C}\U{17D} Attachment"

  /** The reply box's content line as written: the content, else the misencoded placeholder, else empty. */
  function ReplyPreviewAsWritten(content: string, hasAttachments: bool): (r: string)
    ensures content != "" ==> r == content
    ensures content == "" && hasAttachments ==> r == MisencodedPlaceholder
    ensures content == "" && !hasAttachments ==> r == ""
  {
    if content != "" then content else if hasAttachments then MisencodedPlaceholder else ""
  }

  /** The reply preview for an attachment-only message differs from the placeholder the sidebar shows. */
  lemma ReplyPlaceholderMisencoded()
    ensures ReplyPreviewAsWritten("", true) != ChatChannel.AttachmentPlaceholder
  {
    assert ReplyPreviewAsWritten("", true)[0] != ChatChannel.AttachmentPlaceholder[0];
  }

  /** The reply box's content line, with the placeholder the rest of the application uses. */
  function ReplyPreview(content: string, hasAttachments: bool): (r: string)
    ensures content != "" ==> r == content
    ensures content == "" && hasAttachments ==> r == ChatChannel.AttachmentPlaceholder
    ensures content == "" && !hasAttachments ==> r == ""
  {
    if content != "" then content else if hasAttachments then ChatChannel.AttachmentPlaceholder else ""
  }

  /** The reply box: the hidden parent id field, whether it is shown, and its two text lines. */
  class ReplyBox {
    var parentId: string
    var shown: bool
    var author: string
    var content: string

    constructor ()
      ensures parentId == "" && !shown && author == "" && content == ""
    {
      parentId := "";
      shown := false;
      author := "";
      content := "";
    }

    /** `startReply`: the parent id is set, the box shown, with the author and the content line. */
    method StartReply(messageId: string, authorName: string, messageContent: string, hasAttachments: bool)
      modifies this
      ensures parentId == messageId && shown && author == authorName
      ensures content == ReplyPreviewAsWritten(messageContent, hasAttachments)
    {
      parentId := messageId;
      shown := true;
      author := authorName;
      content := ReplyPreviewAsWritten(messageContent, hasAttachments);
    }

    /** `cancelReply`: the parent id and both lines are cleared and the box hidden. */
    method CancelReply()
      modifies this
      ensures parentId == "" && !shown && author == "" && content == ""
    {
      parentId := "";
      shown := false;
      author := "";
      content := "";
    }
  }
}
