/** `DisplayInventory.cs` and `InventoryScrollButton.cs`: the visible window
    of the inventory, the grid positions of its slots, and the two scroll
    buttons. All indices are C# `int`s, so the sums and differences the code
    forms wrap around at 32 bits. The slot objects themselves are scene
    objects; a slot is represented by the item it shows. */
module InventoryDisplay {
  import opened Wrappers
  import opened Variables
  import opened Layout
  import opened Inventories

  /** The displayed inventory: layout settings, the window size and the
      index of the first visible item. */
  datatype Display = Display(
    startX: real, startY: real, width: real, height: real, columnCount: Int32,
    maxItemCount: Int32,
    itemIdx: Int32)

  /** IsOutside: index i lies before the window or at or after its end
      (`ItemIdx + MaxItemCount`, a 32-bit sum). */
  function IsOutside(d: Display, i: Int32): (r: bool)
    ensures IsInt32(d.itemIdx + d.maxItemCount) ==>
      (r <==> !(d.itemIdx <= i < d.itemIdx + d.maxItemCount))
    ensures d.itemIdx + d.maxItemCount > Int32Max ==> r
  {
    i < d.itemIdx || i >= Wrap(d.itemIdx + d.maxItemCount)
  }

  /** GetPosition of a slot. */
  function GetPosition(d: Display, index: Int32): (r: Result<Vec>)
    ensures d.columnCount == 0 ==> r == Ok(Vec(0.0, 0.0))
    ensures r.Err? <==> d.columnCount == -1 && index == Int32Min
  {
    GridPosition(d.startX, d.startY, d.width, d.height, d.columnCount, index)
  }

  /** For a non-negative index, the slot ColumnCount further on lies in the
      same column, one Height lower. */
  lemma GetPositionNextRow(d: Display, index: Int32)
    requires 0 < d.columnCount && 0 <= index && IsInt32(index + d.columnCount)
    ensures GetPosition(d, index).Ok? && GetPosition(d, index + d.columnCount).Ok?
    ensures GetPosition(d, index + d.columnCount).value
      == GetPosition(d, index).value.(y := GetPosition(d, index).value.y - d.height)
  {
    GridNextRow(d.startX, d.startY, d.width, d.height, d.columnCount, index);
  }

  /** FindSlot: the index of the first slot showing the item, or null. */
  function FindSlot(slots: seq<ItemRef>, item: ItemRef): (r: Option<nat>)
    ensures r.None? <==> item !in slots
    ensures r.Some? ==> r.value < |slots| && slots[r.value] == item && item !in slots[..r.value]
    decreases |slots|
  {
    if |slots| == 0 then None
    else if slots[0] == item then Some(0)
    else
      match FindSlot(slots[1..], item)
      case None => None
      case Some(k) =>
        assert slots[..k + 1] == [slots[0]] + slots[1..][..k];
        Some(k + 1)
  }

  /** Whether a child is shown, and where. */
  datatype Placement = Hidden | Shown(at: Result<Vec>)

  /** The placement of child k (counted by a 32-bit int): shown at
      `GetPosition(i - ItemIdx)` inside the window, hidden outside. */
  function Place(d: Display, k: nat): (p: Placement)
    ensures p.Shown? <==> !IsOutside(d, Wrap(k))
    ensures p.Shown? ==> p.at == GetPosition(d, Wrap(Wrap(k) - d.itemIdx))
  {
    var i := Wrap(k);
    if !IsOutside(d, i) then Shown(GetPosition(d, Wrap(i - d.itemIdx))) else Hidden
  }

  /** The loop of SetActiveItems (and of Scroll) over the n item children. */
  function SetActiveItems(d: Display, n: nat): (r: seq<Placement>)
    ensures |r| == n && forall k :: 0 <= k < n ==> r[k] == Place(d, k)
  {
    seq(n, k requires 0 <= k < n => Place(d, k))
  }

  /** A window that does not reach past int.MaxValue shows exactly the
      children ItemIdx up to ItemIdx + MaxItemCount - 1, the first of them at
      slot position 0, the next at 1, and so on. */
  lemma WindowShown(d: Display, n: nat, k: nat)
    requires n <= Int32Max && k < n
    requires 0 <= d.itemIdx && IsInt32(d.itemIdx + d.maxItemCount)
    ensures SetActiveItems(d, n)[k].Shown? <==> d.itemIdx <= k < d.itemIdx + d.maxItemCount
    ensures SetActiveItems(d, n)[k].Shown? ==> SetActiveItems(d, n)[k].at == GetPosition(d, k - d.itemIdx)
  {
  }

  /** UpdateInventory: back to the first item, then re-place the children
      of the rebuilt slot list. */
  function UpdateInventory(d: Display, inventory: seq<ItemRef>): (r: (Display, seq<Placement>))
    ensures r.0 == d.(itemIdx := 0)
    ensures |r.1| == |inventory| && forall k :: 0 <= k < |inventory| ==> r.1[k] == Place(d.(itemIdx := 0), k)
  {
    var reset := d.(itemIdx := 0);
    (reset, SetActiveItems(reset, |inventory|))
  }

  datatype Direction = Forward | Backward

  /** The last first-index that still fills the window:
      `Count - MaxItemCount`, or 0 when that is negative. */
  function LastStart(d: Display, count: Int32): (b: Int32)
    ensures 0 <= b
    ensures IsInt32(count - d.maxItemCount) ==> b == Max(count - d.maxItemCount, 0)
  {
    var diff := Wrap(count - d.maxItemCount);
    if diff < 0 then 0 else diff
  }

  /** The index a scroll moves to: forward by ShiftByCount but not past
      LastStart, backward by ShiftByCount but not below 0. */
  function ScrollTarget(d: Display, dir: Direction, count: Int32, shift: Int32): (idx: Int32)
    ensures dir == Forward ==> idx <= LastStart(d, count)
    ensures dir == Forward && IsInt32(d.itemIdx + shift) ==> idx == Min(d.itemIdx + shift, LastStart(d, count))
    ensures dir == Backward ==> 0 <= idx
    ensures dir == Backward && IsInt32(d.itemIdx - shift) ==> idx == Max(d.itemIdx - shift, 0)
  {
    match dir
    case Forward => Min(Wrap(d.itemIdx + shift), LastStart(d, count))
    case Backward => Max(Wrap(d.itemIdx - shift), 0)
  }

  /** Scroll: move the window, then show and place the n item children for
      the new window. `count` is the inventory's Count. */
  function Scroll(d: Display, dir: Direction, count: Int32, shift: Int32, n: nat): (r: (Display, seq<Placement>))
    ensures r.0 == d.(itemIdx := ScrollTarget(d, dir, count, shift))
    ensures dir == Backward ==> 0 <= r.0.itemIdx
    ensures dir == Forward ==> r.0.itemIdx <= LastStart(d, count)
    ensures |r.1| == n && forall k :: 0 <= k < n ==> r.1[k] == Place(r.0, k)
  {
    var moved := d.(itemIdx := ScrollTarget(d, dir, count, shift));
    (moved, SetActiveItems(moved, n))
  }

  /** SetColor: the button is greyed out (inactive) when its scroll would
      leave ItemIdx where it is. */
  function Inactive(d: Display, dir: Direction, count: Int32, shift: Int32): (b: bool)
    ensures b <==> Scroll(d, dir, count, shift, 0).0 == d
  {
    ScrollTarget(d, dir, count, shift) == d.itemIdx
  }

  /** After a backward scroll from a non-negative index by a positive step,
      the backward button is grey exactly when the first item is shown. */
  lemma BackwardGreyAtStart(d: Display, count: Int32, shift: Int32, n: nat)
    requires 0 <= d.itemIdx && 0 < shift
    ensures var after := Scroll(d, Backward, count, shift, n).0;
      Inactive(after, Backward, count, shift) <==> after.itemIdx == 0
  {
    var after := Scroll(d, Backward, count, shift, n).0;
    assert IsInt32(d.itemIdx) && IsInt32(shift);
    assert IsInt32(d.itemIdx - shift);
    assert 0 <= after.itemIdx && IsInt32(after.itemIdx - shift);
    assert ScrollTarget(after, Backward, count, shift) == Max(after.itemIdx - shift, 0);
  }

  /** After a forward scroll by a positive step, the forward button is grey
      exactly when the window has reached LastStart, provided stepping past
      LastStart does not overflow. */
  lemma ForwardGreyAtEnd(d: Display, count: Int32, shift: Int32, n: nat)
    requires 0 < shift && IsInt32(d.itemIdx + shift) && IsInt32(LastStart(d, count) + shift)
    ensures var after := Scroll(d, Forward, count, shift, n).0;
      Inactive(after, Forward, count, shift) <==> after.itemIdx == LastStart(d, count)
  {
    var after := Scroll(d, Forward, count, shift, n).0;
    var last := LastStart(d, count);
    assert LastStart(after, count) == last;
    assert after.itemIdx == Min(d.itemIdx + shift, last);
    assert IsInt32(after.itemIdx + shift);
    assert ScrollTarget(after, Forward, count, shift) == Min(after.itemIdx + shift, last);
  }
}
