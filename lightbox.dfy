/**
 * The image viewer over a conversation: it collects the conversation's images afresh each
 * time it opens, starts at the clicked one, steps through them cyclically, and shows a
 * counter and a caption.
 */
module Lightbox {
  import opened Wrappers
  import opened Text

  /** An image of the conversation: its URL, caption and sender name (either may be empty). */
  datatype Image = Image(url: string, caption: string, sender: string)

  /** `findIndex` by URL. */
  function FindUrl(images: seq<Image>, url: string): (r: Option<nat>)
    ensures r.Some? ==>
      r.value < |images| && images[r.value].url == url && forall j :: 0 <= j < r.value ==> images[j].url != url
    ensures r.None? <==> forall j :: 0 <= j < |images| ==> images[j].url != url
  {
    if images == [] then None
    else if images[0].url == url then Some(0)
    else match FindUrl(images[1..], url)
      case None => None
      case Some(k) => Some(k + 1)
  }

  /** `next`: `(i + 1) % n`, one on, wrapping from the last to the first. */
  function NextOf(i: int, n: nat): (r: int)
    requires 0 <= i < n
    ensures 0 <= r < n
  {
    if i + 1 == n then 0 else i + 1
  }

  /** `previous`: `(i - 1 + n) % n`, one back, wrapping from the first to the last. */
  function PreviousOf(i: int, n: nat): (r: int)
    requires 0 <= i < n
    ensures 0 <= r < n
  {
    if i == 0 then n - 1 else i - 1
  }

  /** The two steps are the controller's remainders. */
  lemma StepsAreRemainders(i: int, n: nat)
    requires 0 <= i < n
    ensures NextOf(i, n) == (i + 1) % n
    ensures PreviousOf(i, n) == (i - 1 + n) % n
  {
    if i + 1 < n {
      RemainderBelow(i + 1, n);
    } else {
      RemainderOfSelf(n);
    }
    if i == 0 {
      RemainderBelow(n - 1, n);
    } else {
      RemainderOfShift(i - 1, n);
    }
  }

  /** Stepping on and back, or back and on, returns to the same image. */
  lemma StepsInverse(i: int, n: nat)
    requires 0 <= i < n
    ensures PreviousOf(NextOf(i, n), n) == i
    ensures NextOf(PreviousOf(i, n), n) == i
  {
  }

  /** Where `k` presses of "next" lead from `i`. */
  function StepsOn(i: int, n: nat, k: nat): (r: int)
    requires 0 <= i < n
    ensures 0 <= r < n
  {
    if k == 0 then i else NextOf(StepsOn(i, n, k - 1), n)
  }

  /** Up to a full round, `k` presses move `k` places on, wrapping once past the last image. */
  lemma {:induction false} StepsOnWrap(i: int, n: nat, k: nat)
    requires 0 <= i < n && k <= n
    ensures StepsOn(i, n, k) == if i + k < n then i + k else i + k - n
  {
    if k > 0 {
      StepsOnWrap(i, n, k - 1);
    }
  }

  /** A full round of "next" presses is the identity. */
  lemma FullRound(i: int, n: nat)
    requires 0 <= i < n
    ensures StepsOn(i, n, n) == i
  {
    StepsOnWrap(i, n, n);
  }

  /** The counter's text, "3 of 7". */
  function CounterText(index: int, count: nat): (r: string)
    requires 0 <= index < count
    ensures ParseInt(r) == Some(index + 1)
  {
    var rest := " of " + NatToString(count);
    assert rest[0] == ' ';
    ParseIntOfNatToString(index + 1, rest);
    assert NatToString(index + 1) + " of " + NatToString(count) == NatToString(index + 1) + rest;
    NatToString(index + 1) + rest
  }

  /** The keys the open viewer listens to. */
  datatype Key = Escape | ArrowLeft | ArrowRight | OtherKey

  /** The viewer's state; `listening` is whether the keydown handler is installed. */
  class Viewer {
    var images: seq<Image>
    var currentIndex: int
    var shown: bool
    var listening: bool
    var counter: string
    var caption: string

    /** The index points at an image, or is 0 when there are none. */
    ghost predicate Valid()
      reads this
    {
      0 <= currentIndex && (images == [] ==> currentIndex == 0) && (images != [] ==> currentIndex < |images|)
    }

    constructor ()
      ensures Valid() && images == [] && currentIndex == 0 && !shown && !listening
    {
      images := [];
      currentIndex := 0;
      shown := false;
      listening := false;
      counter := "";
      caption := "";
    }

    /** `displayImage`: the counter shows the position, and the caption the sender when there is one. */
    method Display()
      requires Valid()
      modifies this
      ensures Valid() && images == old(images) && currentIndex == old(currentIndex)
      ensures shown == old(shown) && listening == old(listening)
      ensures images == [] ==> counter == old(counter) && caption == old(caption)
      ensures images != [] ==> counter == CounterText(currentIndex, |images|)
      ensures images != [] && images[currentIndex].sender != "" ==> caption == "Sent by " + images[currentIndex].sender
      ensures images != [] && images[currentIndex].sender == "" ==> caption == old(caption)
    {
      if images == [] {
        return;
      }
      var image := images[currentIndex];
      counter := CounterText(currentIndex, |images|);
      if image.sender != "" {
        caption := "Sent by " + image.sender;
      }
    }

    /**
     * `open`: the images are collected from the page afresh, the viewer starts at the clicked
     * URL (or the first image when it is not among them) and starts listening to keys.
     */
    method Open(clickedUrl: string, page: seq<Image>)
      requires Valid()
      modifies this
      ensures Valid() && images == page && shown && listening
      ensures currentIndex == match FindUrl(page, clickedUrl) case Some(i) => i case None => 0
      ensures page != [] ==> counter == CounterText(currentIndex, |page|)
      ensures page == [] ==> counter == old(counter)
    {
      images := page;
      var found := FindUrl(page, clickedUrl);
      currentIndex := if found.Some? then found.value else 0;
      shown := true;
      Display();
      listening := true;
    }

    /** `close`: ignored for a click that is neither on the backdrop nor on a close control. */
    method Close(accepted: bool)
      requires Valid()
      modifies this
      ensures Valid() && images == old(images) && currentIndex == old(currentIndex)
      ensures shown == (old(shown) && !accepted) && listening == (old(listening) && !accepted)
      ensures counter == old(counter) && caption == old(caption)
    {
      if !accepted {
        return;
      }
      shown := false;
      listening := false;
    }

    /** `next`: a no-op with fewer than two images. */
    method Next()
      requires Valid()
      modifies this
      ensures Valid() && images == old(images) && shown == old(shown) && listening == old(listening)
      ensures |images| <= 1 ==> currentIndex == old(currentIndex)
      ensures |images| > 1 ==> currentIndex == NextOf(old(currentIndex), |images|)
      ensures |images| > 1 ==> counter == CounterText(currentIndex, |images|)
      ensures |images| <= 1 ==> counter == old(counter) && caption == old(caption)
    {
      if |images| <= 1 {
        return;
      }
      currentIndex := NextOf(currentIndex, |images|);
      Display();
    }

    /** `previous`: a no-op with fewer than two images. */
    method Previous()
      requires Valid()
      modifies this
      ensures Valid() && images == old(images) && shown == old(shown) && listening == old(listening)
      ensures |images| <= 1 ==> currentIndex == old(currentIndex)
      ensures |images| > 1 ==> currentIndex == PreviousOf(old(currentIndex), |images|)
      ensures |images| > 1 ==> counter == CounterText(currentIndex, |images|)
      ensures |images| <= 1 ==> counter == old(counter) && caption == old(caption)
    {
      if |images| <= 1 {
        return;
      }
      currentIndex := PreviousOf(currentIndex, |images|);
      Display();
    }

    /** `handleKeydown`: Escape closes, the left and right arrows step back and on. */
    method Keydown(key: Key)
      requires Valid()
      modifies this
      ensures Valid() && images == old(images)
      ensures key == Escape ==> !shown && !listening && currentIndex == old(currentIndex)
      ensures key == ArrowLeft && |images| > 1 ==> currentIndex == PreviousOf(old(currentIndex), |images|)
      ensures key == ArrowRight && |images| > 1 ==> currentIndex == NextOf(old(currentIndex), |images|)
      ensures key == OtherKey || |images| <= 1 ==> currentIndex == old(currentIndex)
      ensures (key == ArrowLeft || key == ArrowRight) && |images| > 1 ==> counter == CounterText(currentIndex, |images|)
      ensures key == Escape || key == OtherKey || |images| <= 1 ==> counter == old(counter)
    {
      match key
      case Escape => Close(true);
      case ArrowLeft => Previous();
      case ArrowRight => Next();
      case OtherKey =>
    }
  }
}
