/**
 * The notification bell in the browser: the unread badge, the dropdown and the items it
 * lists, driven by the user's notification stream and by the bell's own requests. Requests
 * are recorded, and their answers arrive through separate methods. The toast is left out.
 */
module NotificationBell {
  import opened Wrappers
  import opened Text

  /** Above this count the badge shows "99+". */
  const BadgeCap: int := 99

  /** The text the badge shows for a positive count. */
  function BadgeText(count: int): (r: string)
    requires count > 0
    ensures count > BadgeCap ==> r == "99+"
    ensures count <= BadgeCap ==> ParseInt(r) == Some(count) && |r| <= 2
  {
    if count > BadgeCap then "99+"
    else
      ParseIntOfNatToString(count, "");
      assert NatToString(count) + "" == NatToString(count);
      assert |NatToString(count)| <= 2 by {
        if count >= 10 {
          assert NatToString(count) == NatToString(count / 10) + [DigitChar(count % 10)];
        }
      }
      NatToString(count)
  }

  /** A listed notification: its id and whether it is shown as read. */
  datatype Item = Item(id: nat, read: bool)

  /** `markNotificationRead`: the first item with that id is shown as read; a missing id changes nothing. */
  function MarkedRead(items: seq<Item>, id: nat): (r: seq<Item>)
    ensures |r| == |items|
    ensures forall i :: 0 <= i < |items| ==> r[i].id == items[i].id
    ensures forall i :: 0 <= i < |items| ==>
      r[i].read == (items[i].read || (items[i].id == id && forall j :: 0 <= j < i ==> items[j].id != id))
  {
    if items == [] then []
    else if items[0].id == id then [items[0].(read := true)] + items[1..]
    else [items[0]] + MarkedRead(items[1..], id)
  }

  /** `markAllNotificationsRead`: every item is shown as read. */
  function AllRead(items: seq<Item>): (r: seq<Item>)
    ensures |r| == |items|
    ensures forall i :: 0 <= i < |items| ==> r[i] == items[i].(read := true)
  {
    seq(|items|, i requires 0 <= i < |items| => items[i].(read := true))
  }

  /** Marking everything read twice is marking it once, and then no single mark changes anything. */
  lemma AllReadIdempotent(items: seq<Item>, id: nat)
    ensures AllRead(AllRead(items)) == AllRead(items)
    ensures MarkedRead(AllRead(items), id) == AllRead(items)
  {
  }

  /** What arrives on the user's notification stream. */
  datatype Event =
    | NewNotification(unreadCount: int, item: Item)
    | NotificationRead(unreadCount: int, notificationId: nat)
    | NotificationsRead
    | OtherEvent

  /** The bell's state. */
  class Bell {
    var unreadCount: int
    var badgeText: string
    var badgeHidden: bool
    var isDropdownOpen: bool
    var items: seq<Item>
    var emptyStateShown: bool
    var loads: nat
    var markReadRequests: seq<nat>

    /** The badge shows the recorded count: hidden when it is not positive, else its text. */
    ghost predicate Valid()
      reads this
    {
      (badgeHidden <==> unreadCount <= 0) && (unreadCount > 0 ==> badgeText == BadgeText(unreadCount))
    }

    /** `connect`: the bell starts closed with the page's count and asks for the list. */
    constructor (initialCount: int)
      ensures Valid() && !isDropdownOpen && unreadCount == initialCount && items == [] && loads == 1
      ensures markReadRequests == []
    {
      unreadCount := initialCount;
      badgeText := if initialCount > 0 then BadgeText(initialCount) else "";
      badgeHidden := initialCount <= 0;
      isDropdownOpen := false;
      items := [];
      emptyStateShown := false;
      loads := 1;
      markReadRequests := [];
    }

    /** `updateBadge`: the count is recorded; a positive count is shown, capped at "99+", otherwise the badge hides. */
    method UpdateBadge(count: int)
      modifies this
      ensures Valid() && unreadCount == count
      ensures count > 0 ==> badgeText == BadgeText(count) && !badgeHidden
      ensures count <= 0 ==> badgeHidden && badgeText == old(badgeText)
      ensures isDropdownOpen == old(isDropdownOpen) && items == old(items) && emptyStateShown == old(emptyStateShown)
      ensures loads == old(loads) && markReadRequests == old(markReadRequests)
    {
      unreadCount := count;
      if count > 0 {
        badgeText := BadgeText(count);
        badgeHidden := false;
      } else {
        badgeHidden := true;
      }
    }

    /**
     * `handleReceived`: a new notification sets the badge to the server's count and is put at
     * the top of the list only while the dropdown is open; a single read sets the count and
     * marks that item; all read sets the count to 0 and marks every item.
     */
    method Receive(e: Event)
      requires Valid()
      modifies this
      ensures Valid() && isDropdownOpen == old(isDropdownOpen) && loads == old(loads)
      ensures markReadRequests == old(markReadRequests)
      ensures match e
        case NewNotification(count, item) =>
          unreadCount == count
          && items == (if old(isDropdownOpen) then [item] + old(items) else old(items))
          && emptyStateShown == (old(emptyStateShown) && !old(isDropdownOpen))
        case NotificationRead(count, id) =>
          unreadCount == count && items == MarkedRead(old(items), id) && emptyStateShown == old(emptyStateShown)
        case NotificationsRead =>
          unreadCount == 0 && badgeHidden && items == AllRead(old(items)) && emptyStateShown == old(emptyStateShown)
        case OtherEvent =>
          unreadCount == old(unreadCount) && items == old(items) && emptyStateShown == old(emptyStateShown)
    {
      match e
      case NewNotification(count, item) =>
        UpdateBadge(count);
        if isDropdownOpen {
          emptyStateShown := false;
          items := [item] + items;
        }
      case NotificationRead(count, id) =>
        UpdateBadge(count);
        items := MarkedRead(items, id);
      case NotificationsRead =>
        UpdateBadge(0);
        items := AllRead(items);
      case OtherEvent =>
    }

    /** `renderNotifications`: an empty answer shows the empty state and clears the list. */
    method Render(list: seq<Item>)
      modifies this
      ensures items == list && (emptyStateShown <==> list == [])
      ensures unreadCount == old(unreadCount) && badgeText == old(badgeText) && badgeHidden == old(badgeHidden)
      ensures isDropdownOpen == old(isDropdownOpen) && loads == old(loads) && markReadRequests == old(markReadRequests)
    {
      if list == [] {
        emptyStateShown := true;
        items := [];
        return;
      }
      emptyStateShown := false;
      items := list;
    }

    /** A successful load answers with the count and the list; a failed one changes nothing. */
    method LoadAnswered(answer: Option<(int, seq<Item>)>)
      requires Valid()
      modifies this
      ensures Valid() && isDropdownOpen == old(isDropdownOpen) && loads == old(loads)
      ensures answer.None? ==> unreadCount == old(unreadCount) && items == old(items)
      ensures answer.Some? ==>
        unreadCount == answer.value.0 && items == answer.value.1 && (emptyStateShown <==> answer.value.1 == [])
    {
      if answer.Some? {
        UpdateBadge(answer.value.0);
        Render(answer.value.1);
      }
    }

    /** `toggleDropdown`: an open dropdown closes; a closed one opens and reloads the list. */
    method Toggle()
      requires Valid()
      modifies this
      ensures Valid() && isDropdownOpen == !old(isDropdownOpen)
      ensures loads == old(loads) + (if old(isDropdownOpen) then 0 else 1)
      ensures unreadCount == old(unreadCount) && items == old(items)
    {
      if isDropdownOpen {
        isDropdownOpen := false;
      } else {
        isDropdownOpen := true;
        loads := loads + 1;
      }
    }

    /** `handleClickOutside`: a click outside the bell closes an open dropdown; a click inside changes nothing. */
    method Click(inside: bool)
      requires Valid()
      modifies this
      ensures Valid() && isDropdownOpen == (old(isDropdownOpen) && inside)
      ensures loads == old(loads) && unreadCount == old(unreadCount) && items == old(items)
    {
      if isDropdownOpen && !inside {
        isDropdownOpen := false;
      }
    }

    /** `handleClick` on an item: a read request for it is sent and the dropdown closes. */
    method ItemClicked(id: Option<nat>)
      requires Valid()
      modifies this
      ensures Valid() && !isDropdownOpen && items == old(items) && unreadCount == old(unreadCount)
      ensures markReadRequests == old(markReadRequests) + (if id.Some? then [id.value] else [])
    {
      if id.Some? {
        markReadRequests := markReadRequests + [id.value];
      }
      isDropdownOpen := false;
    }

    /** `markAllRead` answered: on success the badge goes to 0 and every item is read. */
    method MarkAllAnswered(ok: bool)
      requires Valid()
      modifies this
      ensures Valid() && isDropdownOpen == old(isDropdownOpen)
      ensures ok ==> unreadCount == 0 && badgeHidden && items == AllRead(old(items))
      ensures !ok ==> unreadCount == old(unreadCount) && items == old(items)
    {
      if ok {
        UpdateBadge(0);
        items := AllRead(items);
      }
    }
  }

  /** After the all-read event nothing listed is unread and the badge is hidden, whatever came before. */
  method AllReadClearsBell(b: Bell)
    requires b.Valid()
    modifies b
    ensures b.Valid() && b.badgeHidden && b.unreadCount == 0
    ensures forall i :: 0 <= i < |b.items| ==> b.items[i].read
  {
    b.Receive(NotificationsRead);
  }
}
