/** `InventoryManager.cs`: the player's inventory list.

    Items are assets; the model compares them by value, which stands for the
    reference comparison the C# list methods make, and a null entry is
    `None`. `OnInventoryChanged` is counted: `notified` is the number of
    times the event has fired. */
module Inventories {
  import opened Wrappers
  import opened Lists

  /** An item asset (`Item`, `InventoryItem`, `WorldItem`). */
  datatype Item = Item(id: nat, name: string)

  type ItemRef = Option<Item>

  datatype InventoryManager = InventoryManager(
    inventory: seq<ItemRef>,
    restrictSize: bool,
    maxSize: int,
    notified: nat)

  /** No item occurs twice. */
  predicate NoDuplicates(s: seq<ItemRef>) {
    forall i, j :: 0 <= i < j < |s| ==> s[i] != s[j]
  }

  /** The invariant AddItem keeps: no duplicates, and at most MaxSize items
      when the size is restricted. */
  predicate Valid(m: InventoryManager) {
    NoDuplicates(m.inventory) && (m.restrictSize ==> |m.inventory| <= m.maxSize)
  }

  /** AddItem refuses an item that is already present or that would not fit;
      otherwise it appends it and fires the event once. */
  function AddItem(m: InventoryManager, item: ItemRef): (r: InventoryManager)
    ensures r == m <==> (m.restrictSize && |m.inventory| >= m.maxSize) || item in m.inventory
    ensures r != m ==> r == m.(inventory := m.inventory + [item], notified := m.notified + 1)
  {
    if (m.restrictSize && |m.inventory| >= m.maxSize) || item in m.inventory then m
    else m.(inventory := m.inventory + [item], notified := m.notified + 1)
  }

  /** AddItem keeps the inventory free of duplicates and within MaxSize. */
  lemma AddItemValid(m: InventoryManager, item: ItemRef)
    requires Valid(m)
    ensures Valid(AddItem(m, item))
  {
    var r := AddItem(m, item);
    if r != m {
      forall i, j | 0 <= i < j < |r.inventory|
        ensures r.inventory[i] != r.inventory[j]
      {
        if j == |m.inventory| {
          assert r.inventory[i] == m.inventory[i];
        }
      }
    }
  }

  /** RemoveItem drops the first occurrence of the item and fires the event
      only when something was removed. */
  function RemoveItem(m: InventoryManager, item: ItemRef): (r: InventoryManager)
    ensures item !in m.inventory ==> r == m
    ensures item in m.inventory ==> r.notified == m.notified + 1 && |r.inventory| == |m.inventory| - 1
    ensures item in m.inventory ==>
      exists i :: 0 <= i < |m.inventory| && m.inventory[i] == item
        && item !in m.inventory[..i] && r.inventory == m.inventory[..i] + m.inventory[i + 1..]
    ensures r.restrictSize == m.restrictSize && r.maxSize == m.maxSize
  {
    var (rest, removed) := RemoveFirst(m.inventory, item);
    if removed then m.(inventory := rest, notified := m.notified + 1) else m
  }

  /** Dropping one entry keeps a list free of duplicates. */
  lemma NoDuplicatesWithout(s: seq<ItemRef>, i: int)
    requires NoDuplicates(s) && 0 <= i < |s|
    ensures NoDuplicates(s[..i] + s[i + 1..])
  {
    var t := s[..i] + s[i + 1..];
    forall a, b | 0 <= a < b < |t|
      ensures t[a] != t[b]
    {
      var a' := if a < i then a else a + 1;
      var b' := if b < i then b else b + 1;
      assert t[a] == s[a'] && t[b] == s[b'];
    }
  }

  /** Removing keeps the invariant. */
  lemma RemoveItemValid(m: InventoryManager, item: ItemRef)
    requires Valid(m)
    ensures Valid(RemoveItem(m, item))
  {
    var r := RemoveItem(m, item);
    if item in m.inventory {
      var i :| 0 <= i < |m.inventory| && m.inventory[i] == item
        && item !in m.inventory[..i] && r.inventory == m.inventory[..i] + m.inventory[i + 1..];
      NoDuplicatesWithout(m.inventory, i);
    }
  }

  /** RemoveItem undoes a successful AddItem. */
  lemma AddThenRemove(m: InventoryManager, item: ItemRef)
    requires AddItem(m, item) != m
    ensures RemoveItem(AddItem(m, item), item).inventory == m.inventory
    ensures RemoveItem(AddItem(m, item), item).notified == m.notified + 2
  {
    var s := m.inventory + [item];
    var r := RemoveItem(AddItem(m, item), item);
    var i :| 0 <= i < |s| && s[i] == item && item !in s[..i] && r.inventory == s[..i] + s[i + 1..];
    assert i == |m.inventory|;
    assert s[..i] == m.inventory;
  }

  /** ClearInventory empties the list and always fires the event. */
  function ClearInventory(m: InventoryManager): (r: InventoryManager)
    ensures r.inventory == [] && r.notified == m.notified + 1
    ensures (m.restrictSize ==> 0 <= m.maxSize) ==> Valid(r)
    ensures r.restrictSize == m.restrictSize && r.maxSize == m.maxSize
  {
    m.(inventory := [], notified := m.notified + 1)
  }
}
