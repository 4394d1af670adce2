/** Selection and scrolling state of an RTGUI list box, as values.
 *
 *  A list box shows `itemPerPage` rows of its `itemCount` items, starting at
 *  row `firstAloc` (the window), and highlights row `nowAloc` (the current
 *  selection); `oldAloc` remembers the row highlighted before, so that only
 *  the two changed rows need repainting. The functions below are the
 *  transitions the widget's event handlers make on these fields; the class in
 *  listbox.dfy performs them in place and is specified by them.
 */
module ListBoxNav {

  /** `item_count - 1` on an empty box wraps round to this (rt_uint32_t). */
  const U32Max: nat := 0xFFFF_FFFF

  /** A mouse row index is kept in an rt_uint16_t. */
  const U16Range: nat := 0x1_0000

  /** A popup list box never shows more rows than this. */
  const PopupRows: nat := 5

  /** The list box's scalar fields. */
  datatype Cursor = Cursor(
    itemCount: nat,
    itemPerPage: nat,
    firstAloc: nat,
    nowAloc: nat,
    oldAloc: nat,
    isPopup: bool,
    hidden: bool)

  datatype Key = Up | Down | Return | Backspace | OtherKey

  /** The events the list box's own event handler looks at. */
  datatype Event =
    | Paint
    | Resize(h: nat)
    | MouseButton(inside: bool, dy: nat, buttonDown: bool, buttonUp: bool)
    | Kbd(key: Key, pressed: bool)

  /** Everything that moves the selection or the window: an event, a jump
   *  requested by the application, a scrollbar drag, or losing the focus. */
  datatype Action = Handle(event: Event) | Jump(aloc: nat) | Drag(value: nat) | LoseFocus

  /** Both selection fields name an existing item (when there is one). */
  predicate SelectionInRange(c: Cursor)
  {
    c.itemCount > 0 ==> c.nowAloc < c.itemCount && c.oldAloc < c.itemCount
  }

  /** The current selection is one of the visible rows. */
  predicate InWindow(c: Cursor)
  {
    c.firstAloc <= c.nowAloc < c.firstAloc + c.itemPerPage
  }

  /** The window does not run past the last item unless it starts at the top. */
  predicate WindowFits(c: Cursor)
  {
    c.firstAloc == 0 || c.firstAloc + c.itemPerPage <= c.itemCount
  }

  /** The state a non-empty list box keeps while it is navigated. */
  predicate Consistent(c: Cursor)
  {
    c.itemCount > 0 && SelectionInRange(c) && InWindow(c) && WindowFits(c)
  }

  /** `item_count - 1` computed in rt_uint32_t. */
  function LastIndex(count: nat): (r: nat)
    ensures count <= U32Max ==> r == (count - 1) % (U32Max + 1)
  {
    if count == 0 then U32Max else count - 1
  }

  /** Rows per page after `set_items`: the rows of height `itemSize + 2` that
   *  fit in the box, or for a popup as many items as there are, up to five. */
  function PageSize(isPopup: bool, count: nat, height: nat, itemSize: nat): (pp: nat)
    ensures isPopup ==> pp <= PopupRows && pp <= count && (pp == count || pp == PopupRows)
  {
    if isPopup then
      (if count < PopupRows then count else PopupRows)
    else
      height / (itemSize + 2)
  }

  /** The height a popup list box gives itself for `pp` rows: room for the
   *  rows and a two-pixel margin, at most one row more, and less than a
   *  whole row when rows are taller than the margin. */
  function PopupHeight(pp: nat, itemSize: nat): (h: nat)
    ensures pp * (itemSize + 2) < h <= (pp + 1) * (itemSize + 2)
    ensures itemSize > 0 ==> h < (pp + 1) * (itemSize + 2)
  {
    2 + (itemSize + 2) * pp
  }

  lemma DivBounds(n: nat, d: nat)
    requires d > 0
    ensures (n / d) * d <= n < (n / d + 1) * d
  {
  }

  lemma MulCancel(a: nat, b: nat, d: nat)
    requires a * d < b * d
    ensures a < b
  {
  }

  /** `q` is the quotient of `n` by `d` exactly when the `q`-th band of
   *  height `d` holds `n`. */
  lemma DivUnique(n: nat, d: nat, q: nat)
    requires d > 0 && q * d <= n < (q + 1) * d
    ensures n / d == q
  {
    var k := n / d;
    DivBounds(n, d);
    MulCancel(k, q + 1, d);
    MulCancel(q, k + 1, d);
  }

  /** A box that is not a popup shows exactly the whole rows that fit in it. */
  lemma PageSizeFits(count: nat, height: nat, itemSize: nat)
    ensures var pp := PageSize(false, count, height, itemSize);
            pp * (itemSize + 2) <= height < (pp + 1) * (itemSize + 2)
  {
    DivBounds(height, itemSize + 2);
  }

  /** A popup resized to its own height keeps its page size, when rows are
   *  at least one pixel high. */
  lemma PopupHeightKeepsPageSize(pp: nat, itemSize: nat)
    requires itemSize > 0
    ensures PageSize(false, 0, PopupHeight(pp, itemSize), itemSize) == pp
  {
    var d := itemSize + 2;
    var h := PopupHeight(pp, itemSize);
    assert h < (pp + 1) * d by { assert h == pp * d + 2; }
    DivUnique(h, d, pp);
  }

  /** Hide a popup and send its window and selection back to the top. */
  function PopupReset(c: Cursor): (r: Cursor)
    ensures r.hidden && r.firstAloc == 0 && r.nowAloc == 0
    ensures r.itemCount == c.itemCount && r.itemPerPage == c.itemPerPage && r.oldAloc == c.oldAloc
    ensures r.isPopup == c.isPopup
    ensures SelectionInRange(c) ==> SelectionInRange(r)
    ensures Consistent(c) ==> Consistent(r)
  {
    c.(hidden := true, firstAloc := 0, nowAloc := 0)
  }

  /** The RTGUIK_UP arm: one row up, scrolling up one row when the selection
   *  leaves the window; nothing at the top row. */
  function KeyUpStep(c: Cursor): (r: Cursor)
    ensures c.nowAloc > 0 ==> r.nowAloc + 1 == c.nowAloc && r.oldAloc == c.nowAloc
    ensures c.nowAloc == 0 ==> r == c
    ensures r.itemCount == c.itemCount && r.itemPerPage == c.itemPerPage
    ensures r.isPopup == c.isPopup && r.hidden == c.hidden
    ensures c.nowAloc > 0 ==>
      (r.firstAloc + 1 == c.firstAloc <==> c.nowAloc - 1 < c.firstAloc && c.firstAloc > 0) &&
      (r.firstAloc == c.firstAloc || r.firstAloc + 1 == c.firstAloc)
    ensures SelectionInRange(c) ==> SelectionInRange(r)
    ensures Consistent(c) ==> Consistent(r)
  {
    if c.nowAloc > 0 then
      var now := c.nowAloc - 1;
      var first := if now < c.firstAloc && c.firstAloc > 0 then c.firstAloc - 1 else c.firstAloc;
      c.(oldAloc := c.nowAloc, nowAloc := now, firstAloc := first)
    else
      c
  }

  /** The RTGUIK_DOWN arm: one row down, scrolling down one row when the
   *  selection reaches the end of the window; nothing at the last row. */
  function KeyDownStep(c: Cursor): (r: Cursor)
    ensures c.nowAloc + 1 < c.itemCount ==> r.nowAloc == c.nowAloc + 1 && r.oldAloc == c.nowAloc
    ensures c.itemCount > 0 && c.nowAloc + 1 >= c.itemCount ==> r == c
    ensures r.itemCount == c.itemCount && r.itemPerPage == c.itemPerPage
    ensures r.isPopup == c.isPopup && r.hidden == c.hidden
    ensures c.firstAloc <= r.firstAloc <= c.firstAloc + 1
    ensures c.nowAloc + 1 < c.itemCount ==>
      (r.firstAloc == c.firstAloc + 1 <==> c.nowAloc + 1 >= c.firstAloc + c.itemPerPage)
    ensures SelectionInRange(c) ==> SelectionInRange(r)
    ensures Consistent(c) ==> Consistent(r)
  {
    if c.nowAloc < LastIndex(c.itemCount) then
      var now := c.nowAloc + 1;
      var first := if now >= c.firstAloc + c.itemPerPage then c.firstAloc + 1 else c.firstAloc;
      c.(oldAloc := c.nowAloc, nowAloc := now, firstAloc := first)
    else
      c
  }

  /** Down then up puts the selection back where it was. */
  lemma KeyDownThenUp(c: Cursor)
    requires Consistent(c) && c.nowAloc + 1 < c.itemCount
    ensures KeyUpStep(KeyDownStep(c)).nowAloc == c.nowAloc
    ensures Consistent(KeyUpStep(KeyDownStep(c)))
  {
  }

  /** Up then down puts the selection back where it was. */
  lemma KeyUpThenDown(c: Cursor)
    requires Consistent(c) && c.nowAloc > 0
    ensures KeyDownStep(KeyUpStep(c)).nowAloc == c.nowAloc
    ensures Consistent(KeyDownStep(KeyUpStep(c)))
  {
  }

  /** The keyboard arm of the event handler: only key presses on a non-empty
   *  box act; RETURN dismisses a visible popup. */
  function OnKbd(c: Cursor, key: Key, pressed: bool): (r: Cursor)
    ensures !pressed || c.itemCount == 0 ==> r == c
    ensures pressed && c.itemCount > 0 && key == Return ==>
      r == if c.isPopup && !c.hidden then PopupReset(c) else c
    ensures key == Backspace || key == OtherKey ==> r == c
    ensures r.itemCount == c.itemCount && r.itemPerPage == c.itemPerPage
    ensures SelectionInRange(c) ==> SelectionInRange(r)
    ensures Consistent(c) ==> Consistent(r)
  {
    if !pressed || c.itemCount == 0 then c
    else
      match key
      case Up => KeyUpStep(c)
      case Down => KeyDownStep(c)
      case Return => if c.isPopup && !c.hidden then PopupReset(c) else c
      case Backspace => c
      case OtherKey => c
  }

  /** `rtgui_listbox_update_aloc`: select row `aloc`; when the items do not
   *  all fit, also move the window so that it shows `aloc` and stays within
   *  the items. */
  function JumpTo(c: Cursor, aloc: nat): (r: Cursor)
    ensures 0 < c.itemCount <= aloc ==> r == c
    ensures aloc < c.itemCount ==> r.nowAloc == aloc
    ensures c.itemCount == 0 && aloc <= U32Max ==> r == c.(nowAloc := aloc)
    ensures aloc < c.itemCount && c.itemCount > c.itemPerPage > 0 ==>
      r.oldAloc == aloc && r.firstAloc <= aloc < r.firstAloc + r.itemPerPage &&
      r.firstAloc + r.itemPerPage <= r.itemCount
    ensures aloc < c.itemCount && c.itemCount > c.itemPerPage ==>
      r.oldAloc == aloc && r.(firstAloc := c.firstAloc, nowAloc := c.nowAloc, oldAloc := c.oldAloc) == c &&
      r.firstAloc == (if aloc < c.itemCount - c.itemPerPage then aloc else c.itemCount - c.itemPerPage)
    ensures aloc < c.itemCount && c.itemPerPage == 0 ==> r.firstAloc == aloc
    ensures aloc < c.itemCount && c.itemCount <= c.itemPerPage ==> r == c.(nowAloc := aloc)
    ensures r.itemCount == c.itemCount && r.itemPerPage == c.itemPerPage
    ensures r.isPopup == c.isPopup && r.hidden == c.hidden
    ensures SelectionInRange(c) ==> SelectionInRange(r)
    ensures Consistent(c) ==> Consistent(r)
  {
    if aloc > LastIndex(c.itemCount) then c
    else if c.itemCount > c.itemPerPage then
      var first := if aloc + c.itemPerPage > c.itemCount - 1 then c.itemCount - c.itemPerPage else aloc;
      c.(nowAloc := aloc, oldAloc := aloc, firstAloc := first)
    else
      c.(nowAloc := aloc)
  }

  /** The row a click `dy` pixels below the top of the box falls on. */
  function MouseRow(dy: nat, itemSize: nat): (row: nat)
    ensures row < U16Range
  {
    (dy / (itemSize + 2)) % U16Range
  }

  /** A click falls in the band of the row it is given, unless the row
   *  number does not fit in 16 bits. */
  lemma MouseRowBand(dy: nat, itemSize: nat)
    requires dy < (itemSize + 2) * U16Range
    ensures var row := MouseRow(dy, itemSize);
            row * (itemSize + 2) <= dy < (row + 1) * (itemSize + 2)
  {
    var d := itemSize + 2;
    var q := dy / d;
    DivBounds(dy, d);
    assert q * d < U16Range * d;
    MulCancel(q, U16Range, d);
    assert q % U16Range == q;
  }

  /** What a click on an accepted row does: a press selects that row of the
   *  window and remembers the old selection; a release dismisses a visible
   *  popup; anything else changes nothing. */
  function MouseHit(c: Cursor, row: nat, buttonDown: bool, buttonUp: bool): (r: Cursor)
    ensures buttonDown ==> r.nowAloc == c.firstAloc + row && r.oldAloc == c.nowAloc &&
                           r.(nowAloc := c.nowAloc, oldAloc := c.oldAloc) == c
    ensures !buttonDown && buttonUp && c.isPopup && !c.hidden ==> r == PopupReset(c)
    ensures !buttonDown && !(buttonUp && c.isPopup && !c.hidden) ==> r == c
    ensures Consistent(c) && c.firstAloc + row < c.itemCount && row < c.itemPerPage ==> Consistent(r)
  {
    if buttonDown then c.(oldAloc := c.nowAloc, nowAloc := c.firstAloc + row)
    else if buttonUp && c.isPopup && !c.hidden then PopupReset(c)
    else c
  }

  /** The row guard of `rtgui_listbox_onmouse` as written: below both the
   *  item count and the page size, whatever the window's first row. */
  predicate RowAcceptedAsWritten(c: Cursor, inside: bool, row: nat)
  {
    inside && c.itemCount > 0 && row < c.itemCount && row < c.itemPerPage
  }

  /** The row guard as intended: a row of the window that shows an item. */
  predicate RowShown(c: Cursor, inside: bool, row: nat)
  {
    inside && c.itemCount > 0 && c.firstAloc + row < c.itemCount && row < c.itemPerPage
  }

  /** `rtgui_listbox_onmouse` as written. */
  function MouseAsWritten(c: Cursor, inside: bool, row: nat, buttonDown: bool, buttonUp: bool): (r: Cursor)
    ensures r.itemCount == c.itemCount && r.itemPerPage == c.itemPerPage
    ensures !RowAcceptedAsWritten(c, inside, row) ==> r == c
    ensures RowAcceptedAsWritten(c, inside, row) && buttonDown ==>
      r.nowAloc == c.firstAloc + row && r.oldAloc == c.nowAloc &&
      r.(nowAloc := c.nowAloc, oldAloc := c.oldAloc) == c
    ensures RowAcceptedAsWritten(c, inside, row) && !buttonDown && !(buttonUp && c.isPopup && !c.hidden) ==>
      r == c
    ensures RowAcceptedAsWritten(c, inside, row) && !buttonDown && buttonUp && c.isPopup && !c.hidden ==>
      r == PopupReset(c)
    ensures r != c && !r.hidden ==> c.firstAloc <= r.nowAloc < c.firstAloc + c.itemPerPage
  {
    if RowAcceptedAsWritten(c, inside, row) then MouseHit(c, row, buttonDown, buttonUp) else c
  }

  /** After the page has grown while the window was scrolled down, a press
   *  on the last visible row selects a row past the last item. */
  lemma MouseAsWrittenCanSelectPastEnd()
    ensures var c := Cursor(10, 5, 5, 9, 8, false, false);
            var grown := c.(itemPerPage := 8);
            Consistent(c) && !SelectionInRange(MouseAsWritten(grown, true, 7, true, false))
  {
  }

  /** While the window is consistent, the written guard is enough. */
  lemma MouseAsWrittenSafeWhenConsistent(c: Cursor, inside: bool, row: nat, buttonDown: bool, buttonUp: bool)
    requires Consistent(c)
    ensures Consistent(MouseAsWritten(c, inside, row, buttonDown, buttonUp))
  {
    assert MouseAsWritten(c, inside, row, buttonDown, buttonUp) == Mouse(c, inside, row, buttonDown, buttonUp);
  }

  /** `rtgui_listbox_onmouse` with the row checked against the items actually
   *  shown (`firstAloc + row < itemCount`). */
  function Mouse(c: Cursor, inside: bool, row: nat, buttonDown: bool, buttonUp: bool): (r: Cursor)
    ensures r.itemCount == c.itemCount && r.itemPerPage == c.itemPerPage
    ensures !RowShown(c, inside, row) ==> r == c
    ensures RowShown(c, inside, row) && buttonDown ==>
      r.nowAloc == c.firstAloc + row && r.oldAloc == c.nowAloc &&
      r.(nowAloc := c.nowAloc, oldAloc := c.oldAloc) == c
    ensures RowShown(c, inside, row) && !buttonDown && !(buttonUp && c.isPopup && !c.hidden) ==>
      r == c
    ensures RowShown(c, inside, row) && !buttonDown && buttonUp && c.isPopup && !c.hidden ==>
      r == PopupReset(c)
    ensures r != c && !r.hidden ==> c.firstAloc <= r.nowAloc < c.firstAloc + c.itemPerPage
    ensures SelectionInRange(c) ==> SelectionInRange(r)
    ensures Consistent(c) ==> Consistent(r) && r == MouseAsWritten(c, inside, row, buttonDown, buttonUp)
  {
    if RowShown(c, inside, row) then MouseHit(c, row, buttonDown, buttonUp) else c
  }

  /** The list box's event handler on its own scalar state. */
  function OnEvent(c: Cursor, e: Event, itemSize: nat): (r: Cursor)
    ensures r.itemCount == c.itemCount && r.isPopup == c.isPopup
    ensures !e.Resize? ==> r.itemPerPage == c.itemPerPage
    ensures e.Resize? ==> r == c.(itemPerPage := e.h / (itemSize + 2))
    ensures SelectionInRange(c) ==> SelectionInRange(r)
    ensures Consistent(c) && !e.Resize? ==> Consistent(r)
  {
    match e
    case Paint => c
    case Resize(h) => c.(itemPerPage := h / (itemSize + 2))
    case MouseButton(inside, dy, down, up) => Mouse(c, inside, MouseRow(dy, itemSize), down, up)
    case Kbd(key, pressed) => OnKbd(c, key, pressed)
  }

  /** `rtgui_listbox_sbar_handle`: the window starts at the scrollbar's value. */
  function DragTo(c: Cursor, value: nat): (r: Cursor)
    ensures r.firstAloc == value
    ensures r.(firstAloc := c.firstAloc) == c
  {
    c.(firstAloc := value)
  }

  /** `rtgui_listbox_unfocus`: a popup hides and resets when it loses focus. */
  function Unfocus(c: Cursor): (r: Cursor)
    ensures c.isPopup ==> r.hidden && r.firstAloc == 0 && r.nowAloc == 0
    ensures c.isPopup ==> r.(hidden := c.hidden, firstAloc := c.firstAloc, nowAloc := c.nowAloc) == c
    ensures !c.isPopup ==> r == c
    ensures SelectionInRange(c) ==> SelectionInRange(r)
    ensures Consistent(c) ==> Consistent(r)
  {
    if c.isPopup then PopupReset(c) else c
  }

  /** Actions that keep the window consistent: everything but a resize and a
   *  scrollbar drag, which move the window without looking at the selection. */
  predicate Navigates(a: Action)
  {
    !a.Drag? && !(a.Handle? && a.event.Resize?)
  }

  function Step(c: Cursor, a: Action, itemSize: nat): (r: Cursor)
    ensures r.itemCount == c.itemCount && r.isPopup == c.isPopup
    ensures SelectionInRange(c) ==> SelectionInRange(r)
    ensures Consistent(c) && Navigates(a) ==> Consistent(r)
  {
    match a
    case Handle(e) => OnEvent(c, e, itemSize)
    case Jump(aloc) => JumpTo(c, aloc)
    case Drag(value) => DragTo(c, value)
    case LoseFocus => Unfocus(c)
  }

  /** The state after a sequence of actions. No action adds or removes items. */
  function Run(c: Cursor, actions: seq<Action>, itemSize: nat): (r: Cursor)
    ensures r.itemCount == c.itemCount && r.isPopup == c.isPopup
    decreases |actions|
  {
    if actions == [] then c else Run(Step(c, actions[0], itemSize), actions[1..], itemSize)
  }

  /** No sequence of actions moves a selection out of the items. */
  lemma {:induction false} RunKeepsSelectionInRange(c: Cursor, actions: seq<Action>, itemSize: nat)
    requires SelectionInRange(c)
    ensures SelectionInRange(Run(c, actions, itemSize))
    decreases |actions|
  {
    if actions != [] {
      RunKeepsSelectionInRange(Step(c, actions[0], itemSize), actions[1..], itemSize);
    }
  }

  /** Keys, clicks, jumps and focus loss keep the selection in the window and
   *  the window within the items. */
  lemma {:induction false} RunKeepsConsistent(c: Cursor, actions: seq<Action>, itemSize: nat)
    requires Consistent(c)
    requires forall i :: 0 <= i < |actions| ==> Navigates(actions[i])
    ensures Consistent(Run(c, actions, itemSize))
    decreases |actions|
  {
    if actions != [] {
      RunKeepsConsistent(Step(c, actions[0], itemSize), actions[1..], itemSize);
    }
  }
}
