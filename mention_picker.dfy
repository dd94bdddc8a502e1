/**
 * The @mention picker in the message input: detecting a mention being typed before the cursor,
 * the debounced member lookup, keyboard selection in the dropdown, and replacing the typed
 * `@query` with the chosen member's first name.
 */
module MentionPicker {
  import opened Wrappers
  import opened Text

  /** Where the run of `[A-Za-z]` letters that ends `s` begins. */
  function LetterRunStart(s: string): (k: nat)
    ensures k <= |s|
    ensures forall i :: k <= i < |s| ==> IsAsciiLetter(s[i])
    ensures k > 0 ==> !IsAsciiLetter(s[k - 1])
  {
    if s != [] && IsAsciiLetter(s[|s| - 1]) then LetterRunStart(s[..|s| - 1]) else |s|
  }

  /**
   * The pattern `(^|\s)@([A-Za-z]*)$` on the text before the cursor: the letters typed after an
   * `@` that starts the text or follows whitespace, up to the cursor.
   */
  function MentionQuery(before: string): (q: Option<string>)
    ensures q.Some? ==>
      var at := |before| - |q.value| - 1;
      0 <= at && before[at] == '@' && (at == 0 || IsSpace(before[at - 1]))
      && before[at + 1..] == q.value && forall i :: 0 <= i < |q.value| ==> IsAsciiLetter(q.value[i])
  {
    var k := LetterRunStart(before);
    if k >= 1 && before[k - 1] == '@' && (k == 1 || IsSpace(before[k - 2])) then Some(before[k..]) else None
  }

  /** The other direction: an `@` at the start or after whitespace, then letters, is always detected. */
  lemma MentionDetected(prefix: string, query: string)
    requires prefix == [] || IsSpace(prefix[|prefix| - 1])
    requires forall i :: 0 <= i < |query| ==> IsAsciiLetter(query[i])
    ensures MentionQuery(prefix + "@" + query) == Some(query)
  {
    var s := prefix + "@" + query;
    var k := LetterRunStart(s);
    assert s[|prefix|] == '@';
    assert forall i :: |prefix| + 1 <= i < |s| ==> IsAsciiLetter(s[i]) by {
      forall i | |prefix| + 1 <= i < |s| ensures IsAsciiLetter(s[i]) {
        assert s[i] == query[i - |prefix| - 1];
      }
    }
    assert !IsAsciiLetter(s[|prefix|]);
    assert k == |prefix| + 1;
    assert s[k..] == query;
    if |prefix| > 0 {
      assert s[k - 2] == prefix[|prefix| - 1];
    }
  }

  /** A mention followed by a space is no longer being typed. */
  lemma SpaceEndsMention(s: string)
    ensures MentionQuery(s + " ").None?
  {
    var t := s + " ";
    assert !IsAsciiLetter(t[|t| - 1]);
  }

  /** `selectNext`: one down, wrapping to the top. */
  function NextIndex(i: int, n: nat): (r: int)
    requires n > 0 && -1 <= i < n
    ensures 0 <= r < n
  {
    (i + 1) % n
  }

  /** `selectPrevious`: one up, wrapping from the top (or from no selection) to the bottom. */
  function PreviousIndex(i: int, n: nat): (r: int)
    requires n > 0 && -1 <= i < n
    ensures 0 <= r < n
  {
    if i <= 0 then n - 1 else i - 1
  }

  /** Down then up, or up then down, comes back to the same selection. */
  lemma NextPreviousInverse(i: int, n: nat)
    requires n > 0 && 0 <= i < n
    ensures PreviousIndex(NextIndex(i, n), n) == i
    ensures NextIndex(PreviousIndex(i, n), n) == i
  {
    if i + 1 < n {
      RemainderBelow(i + 1, n);
    } else {
      RemainderOfSelf(n);
    }
    if i > 0 {
      RemainderBelow(i, n);
    } else {
      RemainderOfSelf(n);
    }
  }

  /** JavaScript's `substring(start, end)`: both ends clamped to the string, and swapped if reversed. */
  function Substring(s: string, start: int, end: int): (r: string)
    ensures 0 <= start <= end <= |s| ==> r == s[start..end]
  {
    var a := if start < 0 then 0 else if start > |s| then |s| else start;
    var b := if end < 0 then 0 else if end > |s| then |s| else end;
    if a <= b then s[a..b] else s[b..a]
  }

  /** How a member lookup ends: an ok response with its members, a response that is not ok, or a thrown request. */
  datatype Answer = Members(names: seq<string>) | NotOk | Threw

  /** The keys the open dropdown reacts to. */
  datatype Key = ArrowDown | ArrowUp | Enter | Escape | Tab | OtherKey

  /** The picker's state: the input's text and cursor, and the dropdown. */
  class Picker {
    var value: string
    var cursor: nat
    var selectedIndex: int
    var mentionStart: int
    var isOpen: bool
    var members: seq<string>
    var pendingQuery: Option<string>

    /** The cursor is inside the text; an open dropdown has a selected member, a closed one none. */
    ghost predicate Valid()
      reads this
    {
      cursor <= |value|
      && ((isOpen && 0 <= selectedIndex < |members|) || (!isOpen && selectedIndex == -1 && members == []))
    }

    constructor ()
      ensures Valid() && value == "" && cursor == 0 && !isOpen && mentionStart == -1 && pendingQuery.None?
    {
      value := "";
      cursor := 0;
      selectedIndex := -1;
      mentionStart := -1;
      isOpen := false;
      members := [];
      pendingQuery := None;
    }

    /** `closeDropdown`: hidden, nothing selected, no members. */
    method CloseDropdown()
      modifies this
      ensures !isOpen && selectedIndex == -1 && members == []
      ensures value == old(value) && cursor == old(cursor) && mentionStart == old(mentionStart)
      ensures pendingQuery == old(pendingQuery)
      ensures old(cursor <= |value|) ==> Valid()
    {
      isOpen := false;
      selectedIndex := -1;
      members := [];
    }

    /**
     * `handleInput`: while a mention is being typed, the `@`'s position is recorded and a
     * lookup of the letters typed so far is scheduled, replacing any pending one; otherwise the
     * dropdown closes.
     */
    method HandleInput(newValue: string, newCursor: nat)
      requires Valid() && newCursor <= |newValue|
      modifies this
      ensures Valid() && value == newValue && cursor == newCursor
      ensures match MentionQuery(newValue[..newCursor])
        case Some(q) =>
          mentionStart == newCursor - |q| - 1 && pendingQuery == Some(q)
          && isOpen == old(isOpen) && members == old(members) && selectedIndex == old(selectedIndex)
        case None =>
          !isOpen && selectedIndex == -1 && members == []
          && mentionStart == old(mentionStart) && pendingQuery == old(pendingQuery)
    {
      value := newValue;
      cursor := newCursor;
      var q := MentionQuery(newValue[..newCursor]);
      if q.Some? {
        mentionStart := newCursor - |q.value| - 1;
        pendingQuery := q;
      } else {
        CloseDropdown();
      }
    }

    /** The debounce timer fires: the pending lookup is sent. */
    method LookupFires() returns (query: Option<string>)
      requires Valid()
      modifies this
      ensures Valid() && query == old(pendingQuery) && pendingQuery.None?
      ensures value == old(value) && cursor == old(cursor) && isOpen == old(isOpen) && members == old(members)
      ensures selectedIndex == old(selectedIndex) && mentionStart == old(mentionStart)
    {
      query := pendingQuery;
      pendingQuery := None;
    }

    /**
     * The lookup answers (`fetchMembers`): an ok response with members opens the dropdown on
     * the first of them (`showDropdown`), an ok response with none closes it, a response that
     * is not ok changes nothing, and a request that throws closes the dropdown.
     */
    method LookupAnswered(answer: Answer)
      requires Valid()
      modifies this
      ensures Valid() && value == old(value) && cursor == old(cursor) && mentionStart == old(mentionStart)
      ensures pendingQuery == old(pendingQuery)
      ensures answer.Members? && answer.names != [] ==> isOpen && selectedIndex == 0 && members == answer.names
      ensures (answer.Members? && answer.names == []) || answer.Threw? ==> !isOpen && selectedIndex == -1 && members == []
      ensures answer.NotOk? ==> isOpen == old(isOpen) && selectedIndex == old(selectedIndex) && members == old(members)
    {
      match answer
      case Members(names) =>
        if names != [] {
          members := names;
          selectedIndex := 0;
          isOpen := true;
        } else {
          CloseDropdown();
        }
      case NotOk =>
      case Threw =>
        CloseDropdown();
    }

    /**
     * `insertMention`: the text from the `@` to the cursor becomes "@First " and the cursor
     * moves right after it; the dropdown closes.
     */
    method InsertMention(firstName: string)
      requires Valid()
      modifies this
      ensures Valid() && !isOpen
      ensures var before := Substring(old(value), 0, old(mentionStart));
        value == before + "@" + firstName + " " + Substring(old(value), old(cursor), |old(value)|)
        && cursor == |before| + |firstName| + 2
      ensures 0 <= old(mentionStart) <= old(cursor) ==>
        value == old(value)[..old(mentionStart)] + "@" + firstName + " " + old(value)[old(cursor)..]
        && MentionQuery(value[..cursor]).None?
    {
      var before := Substring(value, 0, mentionStart);
      var after := Substring(value, cursor, |value|);
      var mention := "@" + firstName + " ";
      value := before + mention + after;
      cursor := |before| + |mention|;
      assert value[..cursor] == (before + "@" + firstName) + " ";
      SpaceEndsMention(before + "@" + firstName);
      CloseDropdown();
    }

    /**
     * `handleKeydown`: nothing while closed. Arrows move the selection, Escape closes, Enter
     * inserts the selected member, and Tab inserts the selected member or else the first.
     */
    method Keydown(key: Key)
      requires Valid()
      modifies this
      ensures Valid()
      ensures !old(isOpen) ==> value == old(value) && selectedIndex == old(selectedIndex) && members == old(members)
      ensures old(isOpen) && key == ArrowDown ==>
        isOpen && selectedIndex == NextIndex(old(selectedIndex), |old(members)|) && value == old(value)
      ensures old(isOpen) && key == ArrowUp ==>
        isOpen && selectedIndex == PreviousIndex(old(selectedIndex), |old(members)|) && value == old(value)
      ensures old(isOpen) && key == Escape ==> !isOpen && value == old(value)
      ensures old(isOpen) && (key == Enter || key == Tab) ==>
        !isOpen && value == Substring(old(value), 0, old(mentionStart)) + "@" + old(members)[old(selectedIndex)] + " "
                            + Substring(old(value), old(cursor), |old(value)|)
    {
      if !isOpen {
        return;
      }
      match key
      case ArrowDown =>
        selectedIndex := NextIndex(selectedIndex, |members|);
      case ArrowUp =>
        selectedIndex := PreviousIndex(selectedIndex, |members|);
      case Enter =>
        InsertMention(members[selectedIndex]);
      case Escape =>
        CloseDropdown();
      case Tab =>
        InsertMention(members[selectedIndex]);
      case OtherKey =>
    }

    /** `selectItem`: clicking an entry inserts that member; an index outside the list does nothing. */
    method SelectItem(index: int)
      requires Valid()
      modifies this
      ensures Valid()
      ensures !(0 <= index < |old(members)|) ==> value == old(value) && isOpen == old(isOpen)
      ensures 0 <= index < |old(members)| ==>
        !isOpen && value == Substring(old(value), 0, old(mentionStart)) + "@" + old(members)[index] + " "
                            + Substring(old(value), old(cursor), |old(value)|)
    {
      if 0 <= index < |members| {
        InsertMention(members[index]);
      }
    }

    /** `handleClickOutside`: a click outside the picker closes an open dropdown. */
    method ClickOutside()
      requires Valid()
      modifies this
      ensures Valid() && !isOpen && value == old(value)
    {
      if isOpen {
        CloseDropdown();
      }
    }
  }
}
