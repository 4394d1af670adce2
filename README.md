# RTGUI list box: selection, scrolling and item array

A Dafny model of the list-box widget of RTGUI, the GUI toolkit of RT-Thread
(`branches/rtgui_win/widgets/listbox.c`). A list box owns an array of items
(a label and an optional picture each) and shows `item_per_page` of them,
starting at row `frist_aloc`. It highlights row `now_aloc` and remembers the
previously highlighted row `old_aloc`, so that a repaint only touches the two
changed rows.

The model has two modules.

- `ListBoxNav` (`nav.dfy`) holds the scalar fields as a value (`Cursor`).
  It gives one function per handler: the UP and DOWN keys, RETURN on a popup,
  a mouse press or release on a row, a jump to a row (`update_aloc`), a
  scrollbar drag, a resize, and loss of focus. `Run` folds a sequence of
  these actions. The mouse handler inside these actions is `Mouse`, the
  handler with the corrected row guard (see "## Findings"); the code as
  written is `MouseAsWritten`. With that guard, the lemmas state what the
  handlers keep:
  - the selection stays among the items under every action;
  - the selection stays in the window, and the window within the items,
    under every action except a resize and a scrollbar drag.
  As written, the first of these fails for a press after the page has grown
  (`MouseAsWrittenCanSelectPastEnd`); the second holds as written too,
  because on a consistent window both guards agree
  (`MouseAsWrittenSafeWhenConsistent`).
- `ListBoxWidget` (`listbox.dfy`) is the widget itself. The class `ListBox`
  has the item block as an `array`, with `item_count` and the scalar fields
  beside it. Its methods work in place as the C functions do: the copy loop
  of `set_items`, the grow-and-append of `add_item`, the shift-down loop of
  `delete_item`, and the field updates of the handlers. Three of them carry
  the corrections of "## Findings":
  - `OnMouse`, and `HandleEvent` through it, use the corrected row guard;
    the code as written is `ListBoxNav.MouseAsWritten`.
  - `SetItems` allocates before it gives up the old block, and `AddItem`
    loads an empty box through it; the code as written is
    `SetItemsAsWritten`.

  Each method's
  postcondition ties the new items to the old ones. The handler methods tie
  the new fields to the matching `ListBoxNav` function of the old fields.
  `Fill`, `SetItems`, `AddItem` and `DeleteItem` state the new fields as an
  update of the old ones (`old(State()).(…)`).

Names follow Dafny style: `frist_aloc` is `firstAloc`, `now_aloc` is
`nowAloc`, `item_per_page` is `itemPerPage`, and so on. Allocation results
are parameters (`allocOk`, `reallocOk`); a successful `rt_realloc` is the
method `Realloc`, which copies the prefix into a fresh array. A NULL item
pointer is an empty array. `rt_strdup` copies the label, which in Dafny is
the same value.

Behaviour kept as the code has it, where one might expect otherwise:
- `set_items` resets the selection to row 0 but leaves `frist_aloc` alone.
- `delete_item` adjusts neither the selection nor the window. Deleting the
  selected last item leaves `now_aloc == item_count`.
- `delete_item(k)` with `k` at or past the last index removes the last item,
  because its shift loop does not run.
- On an empty box, `update_aloc` compares against `item_count - 1` in
  `rt_uint32_t`, which wraps round, so any row is accepted as the selection
  (`LastIndex`).
- A resize changes only the page size, and a scrollbar drag changes only the
  window's first row. Neither looks at the selection, so either one can leave
  the selection outside the window.

## Model

| member | source | states |
|---|---|---|
| ListBoxWidget.ListBox.constructor | branches/rtgui_win/widgets/listbox.c:25-53 | a new box has no items; count, window start, both selections and page size are 0; it is not a popup |
| ListBoxWidget.ListBox.GetItemCount | branches/rtgui_win/widgets/listbox.c:761-764 | the count returned is the number of items the box holds |
| ListBoxWidget.ListBox.Fill | branches/rtgui_win/widgets/listbox.c:132-159 | after a successful allocation, item i is a copy of source item i for i < count; the count is `count`; both selections are 0; the page size is `PageSize`; a popup's height becomes the height of its rows |
| ListBoxWidget.ListBox.SetItemsAsWritten | branches/rtgui_win/widgets/listbox.c:123-130 | as written: the old block is dropped first, so a failed allocation leaves no items and the old count; a successful one loads the items, resets both selections, sizes the page and a popup's height as `Fill` does |
| ListBoxWidget.ListBox.SetItems | branches/rtgui_win/widgets/listbox.c:116-186 | corrected (allocation first): a successful call loads copies of the first `count` items, resets both selections to 0, sizes the page and keeps the window start; a failed allocation changes nothing; the count never exceeds the items held |
| ListBoxNav.PopupHeight | branches/rtgui_win/widgets/listbox.c:156 | a popup's height holds its rows of item_size + 2 pixels plus a margin of at most one row, less than one row when item_size > 0 |
| ListBoxNav.PageSize | branches/rtgui_win/widgets/listbox.c:147-155 | a popup's page holds all its items up to five (min(count, 5)) |
| ListBoxNav.PageSizeFits | branches/rtgui_win/widgets/listbox.c:147 | a box that is not a popup shows exactly the whole rows of height item_size + 2 that fit in its height |
| ListBoxNav.PopupHeightKeepsPageSize | branches/rtgui_win/widgets/listbox.c:147-156 | recomputing the page size from the height a popup gave itself gives back its page size |
| ListBoxWidget.ListBox.AddItem | branches/rtgui_win/widgets/listbox.c:691-759 | on success the items are the old ones plus the new one at index item_count; earlier items, selection and window are unchanged; an empty box is loaded through the corrected set_items (`SetItems`), with both selections at 0, the page sized and a popup's height fitted to its rows; on failure nothing changes |
| ListBoxWidget.Realloc | branches/rtgui_win/widgets/listbox.c:706-710 | a grown or shrunk block holds the old block's first items |
| ListBoxWidget.Removed | branches/rtgui_win/widgets/listbox.c:670-681 | removing item k keeps the items before k, moves each later item down one place, and shortens the list by one |
| ListBoxWidget.DeleteLabelsAsWritten | branches/rtgui_win/widgets/listbox.c:670-679 | as written, on label addresses: the loop frees exactly the non-null labels the slots k to count-2 held before the call (`FreedByShift`), each freed while its slot still holds it, and leaves the rows of `Removed` with item min(k, count-1) taken out, the last slot and any slots past the count untouched |
| ListBoxWidget.DeleteFirstOfFourLabels | branches/rtgui_win/widgets/listbox.c:670-679 | as written, the loop run on labels 1, 2, 3, 4 deleting row 0 leaves labels 2 and 3 both freed and held |
| ListBoxWidget.DeleteAsWrittenFreesKeptLabel | branches/rtgui_win/widgets/listbox.c:670-679 | as written, with two or more rows after k, the label that moves into slot k is freed and still held by the box |
| ListBoxWidget.DeleteAsWrittenLeaksLastLabel | branches/rtgui_win/widgets/listbox.c:670-681 | as written, deleting at or past the last row frees nothing, and the removed label is no longer held: it leaks |
| ListBoxWidget.DeleteAsWrittenExample | branches/rtgui_win/widgets/listbox.c:670-679 | as written, deleting row 0 of labels A, B, C, D leaves B and C freed and still held |
| ListBoxWidget.FreedByDelete | branches/rtgui_win/widgets/listbox.c:663-689 | corrected: at most one label is freed, the one of the removed row (the last when k is past it), and it is freed whenever it is not NULL |
| ListBoxWidget.DeleteFreesOnlyRemovedLabel | branches/rtgui_win/widgets/listbox.c:663-689 | corrected, with distinct labels: nothing freed is still held, and every label held before is either still held or freed |
| ListBoxWidget.ListBox.DeleteItem | branches/rtgui_win/widgets/listbox.c:663-689 | the items become the old items with item min(k, count-1) removed; the count drops by one; selection, window and page size are unchanged |
| ListBoxWidget.AddThenDelete | branches/rtgui_win/widgets/listbox.c:663-713 | deleting the item just appended restores the items and the scalar fields |
| ListBoxNav.KeyUpStep | branches/rtgui_win/widgets/listbox.c:545-571 | UP with a selection above row 0 moves it up one row and records the previous row; the window scrolls up by one row exactly when the new selection is above it and the window is not at row 0, and otherwise stays; at row 0 nothing changes; selection range and window consistency are kept |
| ListBoxNav.KeyDownStep | branches/rtgui_win/widgets/listbox.c:573-598 | DOWN before the last item moves the selection down one row and records the previous row; the window scrolls down by one row exactly when the new selection is past its last row, and otherwise stays; at the last item nothing changes; selection range and window consistency are kept |
| ListBoxNav.KeyDownThenUp | branches/rtgui_win/widgets/listbox.c:545-598 | DOWN then UP returns the selection to its row and keeps the window consistent |
| ListBoxNav.KeyUpThenDown | branches/rtgui_win/widgets/listbox.c:545-598 | UP then DOWN returns the selection to its row and keeps the window consistent |
| ListBoxNav.PopupReset | branches/rtgui_win/widgets/listbox.c:614-621 | dismissal hides the box and puts window and selection at row 0; selection range and window consistency are kept |
| ListBoxNav.OnKbd | branches/rtgui_win/widgets/listbox.c:538-640 | key releases and keys on an empty box change nothing; RETURN dismisses a visible popup (`PopupReset`) and otherwise does nothing; BACKSPACE and other keys do nothing; no key changes count or page size; selection range and window consistency are kept |
| ListBoxWidget.ListBox.OnKbd | branches/rtgui_win/widgets/listbox.c:538-640 | the in-place key handler leaves the fields as `ListBoxNav.OnKbd` says and the items untouched |
| ListBoxWidget.ListBox.DismissPopup | branches/rtgui_win/widgets/listbox.c:614-621 | the in-place dismissal leaves the fields as `ListBoxNav.PopupReset` says |
| ListBoxNav.LastIndex | branches/rtgui_win/widgets/listbox.c:771 | item_count - 1 computed modulo 2^32, as rt_uint32_t arithmetic does, for every count that fits in 32 bits |
| ListBoxNav.JumpTo | branches/rtgui_win/widgets/listbox.c:767-799 | a row past the items changes nothing; otherwise it becomes the selection; when the items overflow the page it also becomes the previous selection and the window starts at it, or at the last full page when starting at it would run past the items (at it when the page size is 0), and nothing else changes; otherwise only the selection changes; on an empty box any row is taken |
| ListBoxWidget.ListBox.UpdateAloc | branches/rtgui_win/widgets/listbox.c:767-799 | the in-place jump leaves the fields as `ListBoxNav.JumpTo` says |
| ListBoxNav.MouseRow | branches/rtgui_win/widgets/listbox.c:454 | the clicked row number fits in 16 bits |
| ListBoxNav.MouseRowBand | branches/rtgui_win/widgets/listbox.c:454 | a click falls in the pixel band of the row it is given |
| ListBoxNav.MouseHit | branches/rtgui_win/widgets/listbox.c:461-489 | on an accepted row, a press selects window row `row` and records the previous selection, changing nothing else; a release without a press dismisses a visible popup; anything else changes nothing; a row that shows an item keeps a consistent window consistent |
| ListBoxNav.MouseAsWritten | branches/rtgui_win/widgets/listbox.c:441-497 | as written: a row below the count and the page size is accepted whatever the window start; then a press selects window row `row` and records the previous selection, and a release dismisses a visible popup; any other click changes nothing; count and page size are unchanged |
| ListBoxNav.MouseAsWrittenCanSelectPastEnd | branches/rtgui_win/widgets/listbox.c:459-465 | after the page grows while scrolled down, a press selects a row past the last item |
| ListBoxNav.MouseAsWrittenSafeWhenConsistent | branches/rtgui_win/widgets/listbox.c:459-465 | while the window is consistent, the written guard keeps it consistent |
| ListBoxNav.Mouse | branches/rtgui_win/widgets/listbox.c:441-497 | corrected guard: a row is accepted only when it shows an item; then a press selects window row `row` and records the previous selection, and a release dismisses a visible popup; any other click changes nothing; selection range is always kept; on a consistent window it agrees with the code as written |
| ListBoxWidget.ListBox.OnMouse | branches/rtgui_win/widgets/listbox.c:441-497 | the in-place mouse handler, with the corrected guard, leaves the fields as `ListBoxNav.Mouse` says |
| ListBoxWidget.ListBox.Resize | branches/rtgui_win/widgets/listbox.c:516-525 | a resize sets the page size to the whole rows of the new height and changes nothing else |
| ListBoxNav.OnEvent | branches/rtgui_win/widgets/listbox.c:499-647 | with the corrected mouse guard: no event changes the count; only a resize changes the page size; selection range is kept; consistency is kept by every event except a resize |
| ListBoxWidget.ListBox.HandleEvent | branches/rtgui_win/widgets/listbox.c:499-647 | the in-place handler leaves the fields as `ListBoxNav.OnEvent` says |
| ListBoxNav.DragTo | branches/rtgui_win/widgets/listbox.c:837-847 | a drag sets the window start to the scrollbar's value and changes nothing else |
| ListBoxWidget.ListBox.SbarHandle | branches/rtgui_win/widgets/listbox.c:837-847 | the in-place drag handler leaves the fields as `ListBoxNav.DragTo` says |
| ListBoxNav.Unfocus | branches/rtgui_win/widgets/listbox.c:801-835 | a popup that loses focus is hidden with window and selection at row 0, and every other field is kept; other boxes are unchanged |
| ListBoxWidget.ListBox.Unfocus | branches/rtgui_win/widgets/listbox.c:801-835 | the in-place focus-loss handler leaves the fields as `ListBoxNav.Unfocus` says |
| ListBoxNav.Step | branches/rtgui_win/widgets/listbox.c:499-847 | with the corrected mouse guard: no action changes the count; every action keeps the selection range; every action but a resize or drag keeps consistency |
| ListBoxNav.Run | branches/rtgui_win/widgets/listbox.c:499-847 | a sequence of actions never changes the item count or the popup flag |
| ListBoxNav.RunKeepsSelectionInRange | branches/rtgui_win/widgets/listbox.c:441-847 | with the corrected mouse guard, after any sequence of actions both selections still name existing items |
| ListBoxNav.RunKeepsConsistent | branches/rtgui_win/widgets/listbox.c:441-835 | after any sequence of keys, clicks (corrected guard, which agrees with the written one here), jumps and focus losses, the selection is in the window and the window is within the items |
| ListBoxWidget.FailedSetItemsLeavesStaleCount | branches/rtgui_win/widgets/listbox.c:123-130 | as written, a failed set_items on a box of two items leaves a count of two with no items |
| ListBoxWidget.FailedSetItemsKeepsItems | branches/rtgui_win/widgets/listbox.c:123-130 | with the allocation first, a failed set_items keeps the two items |

## Findings

| source | as written | input that shows it | evidently intended | confidence | as-written member | corrected member |
|---|---|---|---|---|---|---|
| branches/rtgui_win/widgets/listbox.c:459 | the mouse row `i` is accepted when `i < item_count && i < item_per_page`, and then `now_aloc = frist_aloc + i` | 10 items, page 5, window at 5, selection 9; a resize makes the page 8 rows; a press on row 7 sets `now_aloc` to 12, past the last item, which `rtgui_listbox_update` then reads | accept the row only when `frist_aloc + i < item_count` | not executed; high | ListBoxNav.MouseAsWrittenCanSelectPastEnd | ListBoxNav.Mouse |
| branches/rtgui_win/widgets/listbox.c:123-130 | the old item block is freed and set to NULL before `rt_malloc`; when that fails, the function returns with `item_count` unchanged | a box holding two items; `set_items` with a failing allocation leaves `item_count == 2` and no block, and a later `add_item` writes only index 2 of a fresh block | allocate first and leave the box unchanged on failure | not executed; medium | ListBoxWidget.FailedSetItemsLeavesStaleCount | ListBoxWidget.ListBox.SetItems |
| branches/rtgui_win/widgets/listbox.c:670-679 | for each `i` from `item_num` to `item_count - 2`, the label in slot `i` is freed and then slot `i` takes slot `i+1`'s label; the label freed at `i > item_num` is the one moved there in the step before | labels A, B, C, D and `delete_item(0)`: A, B and C are freed and the box keeps B, C, D, so B and C dangle; `delete_item(3)` frees nothing and D leaks | free only the removed row's label, once, then shift | not executed; high | ListBoxWidget.DeleteFirstOfFourLabels | ListBoxWidget.DeleteFreesOnlyRemovedLabel |

## Left out

- Drawing: `rtgui_listbox_ondraw`, `rtgui_listbox_update` and the `rtgui_dc_*` calls are pixel output through a device-context library that is not part of this model. They change no list-box field, so each call is a no-op here.
- Type registration, `rtgui_listbox_create` and `rtgui_listbox_destroy`: these are object-system and rectangle plumbing. The constructor takes the row size (the header constant `SELECTED_HEIGHT`) and the rectangle's height as parameters. The hide flag starts clear.
- Scrollbar internals, panel redraws and clip updates (`rtgui_scrollbar_set_*`, `rtgui_widget_update_clip`, `rtgui_panel_*`, the `external_clip_rect` loop, `rtgui_topwin_move`): these are foreign calls. `sbar_handle` takes the scrollbar's value as a parameter, and nothing constrains that value.
- The `on_item`, `updown`, `on_draw` and `on_mouseclick` callbacks and their setters: these are opaque function pointers. The model takes them as not set.
- Focus handling (`rtgui_widget_focus`, the focus test in `unfocus`) and the clip-region hit test of `onmouse`: the hit test is the `inside` parameter.
- The `LB_USING_MULTI_SEL` build option (`ext_flag`, set by RETURN and cleared by BACKSPACE): the model is the build without it, in which BACKSPACE does nothing.
- The event handler's return value, and the container's default handler that RESIZE and mouse events fall through to. That handler may forward a click to the scrollbar child, whose scroll callback is `sbar_handle`; its effect on `frist_aloc` is the separate `Drag` action, and nothing else of the container is modelled.
- Allocator details: `rt_malloc` failure is the `allocOk` and `reallocOk` parameters. The model does not capture `rt_realloc` to size 0 after the last delete.
- Integer widths: counters are unbounded naturals. The `rt_uint32_t` wrap of `item_count - 1` in `update_aloc` and the `rt_uint16_t` row of `onmouse` are modelled; no other overflow is.
- ListBoxWidget.ListBox.DeleteItem: requires `item_count > 0`. On an empty box the unsigned `item_count - 1` in the shift loop wraps round and the loop runs off the array, so this case is not modelled.
- ListBoxWidget.ListBox.DeleteItem: labels are values in the class, so it does not say which labels are freed. The shift loop's frees are modelled apart, on label addresses, by the method `DeleteLabelsAsWritten` (as written, proved to free `FreedByShift`) and by `FreedByDelete` (corrected).
- `bsp/stm32_radio/Libraries/Mass_Storage/src/mass_mal.c`: it forwards logical unit 0 to an SD card driver that is not part of this model, and has no logic of its own.
