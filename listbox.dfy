/** The RTGUI list box widget: an owned array of items and the scalar state
 *  of ListBoxNav, updated in place by the widget's operations. Drawing,
 *  scrollbar internals and callbacks are not part of this model; the
 *  allocator's success is a parameter of the operations that allocate.
 */
module ListBoxWidget {
  import opened ListBoxNav

  /** A picture shown at the left of a row, by reference. */
  datatype Image = NoImage | Image(handle: nat)

  /** One row: its label and optional picture. */
  datatype Item = Item(name: string, image: Image)

  /** The smaller of two counts. */
  function Min(a: nat, b: nat): (m: nat)
    ensures m <= a && m <= b && (m == a || m == b)
  {
    if a < b then a else b
  }

  /** The items left when the one at `k` is taken out and the later ones
   *  move down by one. */
  function Removed<T>(s: seq<T>, k: nat): (r: seq<T>)
    requires k < |s|
    ensures |r| + 1 == |s|
    ensures forall i :: 0 <= i < k ==> r[i] == s[i]
    ensures forall i :: k <= i < |r| ==> r[i] == s[i + 1]
  {
    s[..k] + s[k + 1..]
  }

  /** Label storage: a label is the address of its heap block, 0 standing
   *  for `RT_NULL`. These members follow what `delete_item` hands to
   *  `rt_free`; the class below keeps labels as values. */

  /** The non-null labels held in `labels`. */
  function Held(labels: seq<nat>): (h: set<nat>)
    ensures forall i :: 0 <= i < |labels| && labels[i] != 0 ==> labels[i] in h
    ensures 0 !in h
  {
    set i | 0 <= i < |labels| && labels[i] != 0 :: labels[i]
  }

  /** Labels pairwise distinct: no two rows share a heap block. */
  predicate Distinct(labels: seq<nat>)
  {
    forall i, j :: 0 <= i < j < |labels| && labels[i] != 0 ==> labels[i] != labels[j]
  }

  /** The labels `delete_item`'s loop frees as written: before slot `i`
   *  takes its successor's label, the label still in slot `i` is freed, for
   *  every `i` from `k` to the second last. */
  function FreedByShift(labels: seq<nat>, k: nat): (freed: set<nat>)
    ensures 0 !in freed
    ensures forall i :: k <= i < |labels| - 1 && labels[i] != 0 ==> labels[i] in freed
    ensures forall a :: a in freed ==> exists i :: k <= i < |labels| - 1 && labels[i] == a
  {
    set i | k <= i < |labels| - 1 && labels[i] != 0 :: labels[i]
  }

  /** The shift loop of `rtgui_listbox_delete_item` as written, on the label
   *  addresses of its `n` rows: in each slot from `k` to the second last,
   *  a non-null label is freed and cleared before the slot takes its
   *  successor's label. The labels freed are `FreedByShift`, and the rows
   *  left are those of `Removed`. */
  method DeleteLabelsAsWritten(a: array<nat>, n: nat, k: nat) returns (freed: set<nat>)
    requires 0 < n <= a.Length
    modifies a
    ensures freed == FreedByShift(old(a[..n]), k)
    ensures a[..n - 1] == Removed(old(a[..n]), Min(k, n - 1))
    ensures a[n - 1] == old(a[n - 1]) && a[n..] == old(a[n..])
  {
    ghost var s := a[..n];
    freed := {};
    var i := k;
    while i < n - 1
      invariant k <= i && (i <= n - 1 || i == k)
      invariant forall j :: 0 <= j < a.Length && (j < k || j >= i) ==> a[j] == old(a[j])
      invariant forall j :: k <= j < i ==> a[j] == s[j + 1]
      invariant freed == set j | k <= j < i && s[j] != 0 :: s[j]
    {
      if a[i] != 0 {
        freed := freed + {a[i]};
        a[i] := 0;
      }
      a[i] := a[i + 1];
      i := i + 1;
    }
    assert freed == FreedByShift(s, k);
    ghost var m := Min(k, n - 1);
    assert forall j :: 0 <= j < n - 1 ==> a[..n - 1][j] == Removed(s, m)[j];
  }

  /** As written, deleting with two or more rows after `k` frees the label
   *  that moves into slot `k`: it stays in the box, dangling. */
  lemma {:induction false} DeleteAsWrittenFreesKeptLabel(labels: seq<nat>, k: nat)
    requires k + 2 < |labels| && labels[k + 1] != 0
    ensures labels[k + 1] in FreedByShift(labels, k)
    ensures labels[k + 1] in Held(Removed(labels, k))
  {
    assert Removed(labels, k)[k] == labels[k + 1];
  }

  /** As written, deleting at or past the last row frees nothing, so the
   *  removed label is neither freed nor kept: it leaks. */
  lemma DeleteAsWrittenLeaksLastLabel(labels: seq<nat>, k: nat)
    requires |labels| > 0 && k >= |labels| - 1 && labels[|labels| - 1] != 0 && Distinct(labels)
    ensures FreedByShift(labels, k) == {}
    ensures labels[|labels| - 1] !in Held(Removed(labels, |labels| - 1))
  {
  }

  /** Four rows, the first deleted: rows B and C are freed and still shown. */
  lemma DeleteAsWrittenExample()
    ensures FreedByShift([1, 2, 3, 4], 0) * Held(Removed([1, 2, 3, 4], 0)) == {2, 3}
  {
    var r := Removed([1, 2, 3, 4], 0);
    assert r == [2, 3, 4];
    assert Held(r) == {2, 3, 4} by {
      assert r[0] == 2 && r[1] == 3 && r[2] == 4;
    }
    var l := [1, 2, 3, 4];
    assert FreedByShift(l, 0) == {1, 2, 3} by {
      assert l[0] == 1 && l[1] == 2 && l[2] == 3;
      assert l[0] in FreedByShift(l, 0) && l[1] in FreedByShift(l, 0) && l[2] in FreedByShift(l, 0);
    }
  }

  /** The loop as written run on four rows with labels 1 to 4, deleting
   *  row 0: the labels 2 and 3 are freed and still held by the rows left. */
  method DeleteFirstOfFourLabels() returns (dangling: set<nat>)
    ensures dangling == {2, 3}
  {
    var a := new nat[4];
    a[0], a[1], a[2], a[3] := 1, 2, 3, 4;
    assert a[..4] == [1, 2, 3, 4];
    var freed := DeleteLabelsAsWritten(a, 4, 0);
    DeleteAsWrittenExample();
    dangling := freed * Held(a[..3]);
  }

  /** What `delete_item` should free: the label of the row it removes
   *  (the last row when `k` is past it), and nothing else. */
  function FreedByDelete(labels: seq<nat>, k: nat): (freed: set<nat>)
    requires |labels| > 0
    ensures freed <= Held(labels)
    ensures freed <= {labels[Min(k, |labels| - 1)]}
    ensures labels[Min(k, |labels| - 1)] != 0 ==> labels[Min(k, |labels| - 1)] in freed
  {
    var m := Min(k, |labels| - 1);
    if labels[m] != 0 then {labels[m]} else {}
  }

  /** With distinct labels, the corrected delete frees no label the box
   *  keeps, and every label it held is either kept or freed. */
  lemma {:induction false} DeleteFreesOnlyRemovedLabel(labels: seq<nat>, k: nat)
    requires |labels| > 0 && Distinct(labels)
    ensures var r := Removed(labels, Min(k, |labels| - 1));
            FreedByDelete(labels, k) * Held(r) == {} &&
            FreedByDelete(labels, k) + Held(r) == Held(labels)
  {
    var m := Min(k, |labels| - 1);
    var r := Removed(labels, m);
    forall a | a in Held(r)
      ensures a in Held(labels) && a !in FreedByDelete(labels, k)
    {
      var j :| 0 <= j < |r| && r[j] != 0 && r[j] == a;
      var i := if j < m then j else j + 1;
      assert labels[i] == a;
      assert i != m;
      if labels[m] != 0 {
        if i < m { assert labels[i] != labels[m]; } else { assert labels[m] != labels[i]; }
      }
    }
    forall a | a in Held(labels)
      ensures a in FreedByDelete(labels, k) || a in Held(r)
    {
      var i :| 0 <= i < |labels| && labels[i] != 0 && labels[i] == a;
      if i < m {
        assert r[i] == a;
      } else if i > m {
        assert r[i - 1] == a;
      }
    }
  }

  /** `rt_realloc` that succeeds: a new block of `n` items holding the first
   *  items of the old one. */
  method Realloc(a: array<Item>, n: nat) returns (b: array<Item>)
    ensures fresh(b) && b.Length == n
    ensures b[..Min(n, a.Length)] == a[..Min(n, a.Length)]
  {
    b := new Item[n];
    var m := Min(n, a.Length);
    var i := 0;
    while i < m
      invariant 0 <= i <= m
      invariant b[..i] == a[..i]
    {
      b[i] := a[i];
      i := i + 1;
    }
  }

  class ListBox {
    /** The item block; its first `itemCount` entries are the items. */
    var items: array<Item>
    var itemCount: nat
    /** First visible row (`frist_aloc` in the source). */
    var firstAloc: nat
    /** Current selection. */
    var nowAloc: nat
    /** Previous selection. */
    var oldAloc: nat
    var itemPerPage: nat
    /** Height of a row's text, without the two-pixel gap. */
    const itemSize: nat
    var isPopup: bool
    /** The widget's hide flag. */
    var hidden: bool
    /** Height of the widget's rectangle, in pixels. */
    var height: nat

    /** The item count never exceeds the items the block holds. */
    ghost predicate Valid()
      reads this
    {
      itemCount <= items.Length
    }

    ghost function Contents(): seq<Item>
      reads this, items
      requires Valid()
    {
      items[..itemCount]
    }

    function State(): Cursor
      reads this
    {
      Cursor(itemCount, itemPerPage, firstAloc, nowAloc, oldAloc, isPopup, hidden)
    }

    /** `_rtgui_listbox_constructor`: an empty, unscrolled, non-popup box.
     *  `selectedHeight` stands for the header constant the row size is set
     *  from, and `height` for the rectangle `rtgui_listbox_create` gives it. */
    constructor (selectedHeight: nat, height: nat)
      ensures Valid() && Contents() == []
      ensures State() == Cursor(0, 0, 0, 0, 0, false, false)
      ensures itemSize == selectedHeight && this.height == height
    {
      items := new Item[0];
      itemCount := 0;
      firstAloc := 0;
      nowAloc := 0;
      oldAloc := 0;
      itemPerPage := 0;
      itemSize := selectedHeight;
      isPopup := false;
      hidden := false;
      this.height := height;
    }

    /** `rtgui_listbox_get_item_count`. */
    method GetItemCount() returns (n: nat)
      requires Valid()
      ensures n == |Contents()|
    {
      n := itemCount;
    }

    /** The part of `set_items` after the new block has been allocated: copy
     *  the names and pictures, reset the selection and size the page. */
    method Fill(src: seq<Item>, count: nat)
      requires count <= |src|
      modifies this
      ensures Valid() && fresh(items) && Contents() == src[..count]
      ensures State() == old(State()).(itemCount := count, nowAloc := 0, oldAloc := 0,
                                       itemPerPage := PageSize(isPopup, count, old(height), itemSize))
      ensures height == if isPopup then PopupHeight(itemPerPage, itemSize) else old(height)
    {
      var a := new Item[count];
      for i := 0 to count
        modifies a
        invariant a[..i] == src[..i]
      {
        a[i] := src[i];
      }
      items := a;
      itemCount := count;
      nowAloc := 0;
      oldAloc := 0;
      itemPerPage := height / (itemSize + 2);
      if isPopup {
        if itemCount < PopupRows {
          itemPerPage := count;
        } else {
          itemPerPage := PopupRows;
        }
        height := PopupHeight(itemPerPage, itemSize);
      }
    }

    /** `rtgui_listbox_set_items` as written: the old block is freed before
     *  the new one is allocated, so a failed allocation leaves no items but
     *  the old count. */
    method SetItemsAsWritten(src: seq<Item>, count: nat, allocOk: bool)
      requires Valid() && count <= |src|
      modifies this
      ensures allocOk ==> Valid() && fresh(items) && Contents() == src[..count]
      ensures allocOk ==> State() == old(State()).(itemCount := count, nowAloc := 0, oldAloc := 0,
                                                   itemPerPage := PageSize(isPopup, count, old(height), itemSize))
      ensures allocOk ==> height == if isPopup then PopupHeight(itemPerPage, itemSize) else old(height)
      ensures !allocOk ==> items.Length == 0 && State() == old(State()) && height == old(height)
    {
      items := new Item[0];
      if !allocOk {
        return;
      }
      Fill(src, count);
    }

    /** `rtgui_listbox_set_items`, allocating the new block before giving up
     *  the old one: a failed allocation changes nothing. On success the box
     *  holds copies of the first `count` items, the selection is back at row
     *  0 and the page is sized; the window's first row is left as it was. */
    method SetItems(src: seq<Item>, count: nat, allocOk: bool)
      requires Valid() && count <= |src|
      modifies this
      ensures Valid()
      ensures allocOk ==> fresh(items) && Contents() == src[..count]
      ensures allocOk ==> State() == old(State()).(itemCount := count, nowAloc := 0, oldAloc := 0,
                                                   itemPerPage := PageSize(isPopup, count, old(height), itemSize))
      ensures allocOk ==> height == if isPopup then PopupHeight(itemPerPage, itemSize) else old(height)
      ensures !allocOk ==> items == old(items) && State() == old(State()) && height == old(height)
    {
      if !allocOk {
        return;
      }
      Fill(src, count);
    }

    /** `rtgui_listbox_add_item`: an empty box is loaded with the one item;
     *  otherwise the block grows by one and the item goes at the end, with
     *  the earlier items and the selection untouched. */
    method AddItem(item: Item, allocOk: bool)
      requires Valid()
      modifies this
      ensures Valid()
      ensures allocOk ==> fresh(items)
      ensures !allocOk ==> items == old(items)
      ensures Contents() == if allocOk then old(Contents()) + [item] else old(Contents())
      ensures old(itemCount) > 0 || !allocOk ==> State() == old(State()).(itemCount := |Contents()|)
      ensures old(itemCount) == 0 && allocOk ==>
        State() == old(State()).(itemCount := 1, nowAloc := 0, oldAloc := 0,
                                 itemPerPage := PageSize(isPopup, 1, old(height), itemSize))
      ensures old(itemCount) > 0 || !allocOk ==> height == old(height)
      ensures old(itemCount) == 0 && allocOk ==>
        height == if isPopup then PopupHeight(itemPerPage, itemSize) else old(height)
    {
      if itemCount == 0 {
        SetItems([item], 1, allocOk);
        return;
      }
      if allocOk {
        var grown := Realloc(items, itemCount + 1);
        items := grown;
        items[itemCount] := item;
        itemCount := itemCount + 1;
      }
    }

    /** `rtgui_listbox_delete_item`: the items after `k` move down one place
     *  and the count drops by one. A `k` at or past the last item removes
     *  the last item. The selection and the window are not adjusted. A failed
     *  shrink keeps the larger block. */
    method DeleteItem(k: nat, reallocOk: bool)
      requires Valid() && itemCount > 0
      modifies this, items
      ensures Valid()
      ensures Contents() == Removed(old(Contents()), Min(k, old(itemCount) - 1))
      ensures State() == old(State()).(itemCount := old(itemCount) - 1)
      ensures height == old(height)
    {
      ghost var s := items[..itemCount];
      var n := itemCount;
      var i := k;
      while i < n - 1
        modifies items
        invariant k <= i && (i <= n - 1 || i == k)
        invariant forall j :: 0 <= j < n && (j < k || j >= i) ==> items[j] == s[j]
        invariant forall j :: k <= j < i ==> items[j] == s[j + 1]
      {
        items[i] := items[i + 1];
        i := i + 1;
      }
      itemCount := n - 1;
      if reallocOk {
        var shrunk := Realloc(items, itemCount);
        items := shrunk;
      }
      ghost var m := Min(k, n - 1);
      assert forall j :: 0 <= j < n - 1 ==> Contents()[j] == Removed(s, m)[j];
    }

    /** The keyboard arm of `rtgui_listbox_event_handler`. */
    method OnKbd(key: Key, pressed: bool)
      requires Valid()
      modifies this
      ensures Valid() && items == old(items) && height == old(height)
      ensures State() == ListBoxNav.OnKbd(old(State()), key, pressed)
    {
      if pressed && itemCount > 0 {
        match key {
          case Up =>
            if nowAloc > 0 {
              oldAloc := nowAloc;
              nowAloc := nowAloc - 1;
              if nowAloc < firstAloc && firstAloc > 0 {
                firstAloc := firstAloc - 1;
              }
            }
          case Down =>
            if nowAloc < itemCount - 1 {
              oldAloc := nowAloc;
              nowAloc := nowAloc + 1;
              if nowAloc >= firstAloc + itemPerPage {
                firstAloc := firstAloc + 1;
              }
            }
          case Return =>
            if isPopup && !hidden {
              DismissPopup();
            }
          case Backspace =>
          case OtherKey =>
        }
      }
    }

    /** Hide the box and go back to the top. */
    method DismissPopup()
      requires Valid()
      modifies this
      ensures Valid() && State() == PopupReset(old(State()))
      ensures items == old(items) && height == old(height)
    {
      hidden := true;
      firstAloc := 0;
      nowAloc := 0;
    }

    /** The RESIZE arm: the page holds the whole rows of the new height. */
    method Resize(h: nat)
      requires Valid()
      modifies this
      ensures Valid() && items == old(items) && height == old(height)
      ensures State() == old(State()).(itemPerPage := h / (2 + itemSize))
    {
      itemPerPage := h / (2 + itemSize);
    }

    /** `rtgui_listbox_onmouse`, for a click `dy` pixels below the top of the
     *  box; `inside` says whether the click falls in the box. The row is
     *  accepted only when it shows an item. */
    method OnMouse(inside: bool, dy: nat, buttonDown: bool, buttonUp: bool)
      requires Valid()
      modifies this
      ensures Valid() && items == old(items) && height == old(height)
      ensures State() == Mouse(old(State()), inside, MouseRow(dy, itemSize), buttonDown, buttonUp)
    {
      if inside && itemCount > 0 {
        var i := (dy / (2 + itemSize)) % U16Range;
        if firstAloc + i < itemCount && i < itemPerPage {
          if buttonDown {
            oldAloc := nowAloc;
            nowAloc := firstAloc + i;
          } else if buttonUp {
            if isPopup && !hidden {
              DismissPopup();
            }
          }
        }
      }
    }

    /** `rtgui_listbox_event_handler`: paint, resize, mouse and keyboard
     *  events; the rest goes to the container's handler, which does not
     *  touch the list box's own fields. */
    method HandleEvent(e: Event)
      requires Valid()
      modifies this
      ensures Valid() && items == old(items) && height == old(height)
      ensures State() == OnEvent(old(State()), e, itemSize)
    {
      match e {
        case Paint =>
        case Resize(h) => Resize(h);
        case MouseButton(inside, dy, down, up) => OnMouse(inside, dy, down, up);
        case Kbd(key, pressed) => OnKbd(key, pressed);
      }
    }

    /** `rtgui_listbox_update_aloc`. */
    method UpdateAloc(aloc: nat)
      requires Valid()
      modifies this
      ensures Valid() && items == old(items) && height == old(height)
      ensures State() == JumpTo(old(State()), aloc)
    {
      if aloc > LastIndex(itemCount) {
        return;
      }
      if itemCount > itemPerPage {
        if aloc + itemPerPage > itemCount - 1 {
          nowAloc := aloc;
          oldAloc := aloc;
          firstAloc := itemCount - itemPerPage;
        } else {
          nowAloc := aloc;
          oldAloc := aloc;
          firstAloc := aloc;
        }
      } else {
        nowAloc := aloc;
      }
    }

    /** `rtgui_listbox_sbar_handle`, given the value the scrollbar reports. */
    method SbarHandle(value: nat)
      requires Valid()
      modifies this
      ensures Valid() && items == old(items) && height == old(height)
      ensures State() == DragTo(old(State()), value)
    {
      firstAloc := value;
    }

    /** `rtgui_listbox_unfocus`: a popup hides and goes back to the top. */
    method Unfocus()
      requires Valid()
      modifies this
      ensures Valid() && items == old(items) && height == old(height)
      ensures State() == ListBoxNav.Unfocus(old(State()))
    {
      if isPopup {
        DismissPopup();
      }
    }
  }

  /** Deleting the item just appended gives back the items there were. */
  method AddThenDelete(box: ListBox, item: Item)
    requires box.Valid() && box.itemCount > 0
    modifies box
    ensures box.Valid() && box.Contents() == old(box.Contents())
    ensures box.State() == old(box.State())
  {
    var n := box.itemCount;
    box.AddItem(item, true);
    box.DeleteItem(n, true);
    assert Removed(old(box.Contents()) + [item], n) == old(box.Contents());
  }

  /** A failed `set_items` as written leaves a box claiming two items while
   *  holding none. */
  method FailedSetItemsLeavesStaleCount() returns (stale: bool)
    ensures stale
  {
    var box := new ListBox(16, 100);
    box.SetItems([Item("one", NoImage), Item("two", Image(1))], 2, true);
    box.SetItemsAsWritten([], 0, false);
    stale := box.itemCount > box.items.Length;
  }

  /** The corrected `set_items` keeps the items when the allocation fails. */
  method FailedSetItemsKeepsItems() returns (kept: bool)
    ensures kept
  {
    var box := new ListBox(16, 100);
    box.SetItems([Item("one", NoImage), Item("two", Image(1))], 2, true);
    box.SetItems([], 0, false);
    kept := box.itemCount == 2 && box.items.Length >= 2 && box.items[1] == Item("two", Image(1));
  }
}
