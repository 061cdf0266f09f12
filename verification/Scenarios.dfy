/**
  Concrete runs of the inventory and the controller from a fresh state,
  with what each step returns stated as a postcondition.
*/
module Scenarios {
  import opened Wrappers
  import opened Parts
  import opened Items
  import opened InventoryStore
  import opened Controller

  /** The lowest index of the free set `{i} + larger`, where every element of `larger` exceeds `i`. */
  lemma LowestIs(s: set<int>, i: int)
    requires i in s && forall x :: x in s ==> i <= x
    ensures Lowest(s) == i
  {
  }

  /**
    Storing X and Y on an empty inventory uses indices 0 and 1; removing
    index 0 reports X but leaves X in the array; storing Z then reuses 0.
  */
  method LowestFreeIndexIsReused() returns (x: Item, first: int, second: int, removed: Item?, stillHeld: Item?, third: int)
    ensures first == 0 && second == 1 && third == 0
    ensures removed == x && stillHeld == x
  {
    x := new Item(None);
    var y := new Item(None);
    var z := new Item(None);
    var inv := new Inventory();
    LowestIs(inv.emptySlots, 0);
    first := inv.StoreItem(x);
    LowestIs(inv.emptySlots, 1);
    second := inv.StoreItem(y);
    removed := inv.RemoveItemFromSlot(0);
    stillHeld := inv.FetchItemByPosition(0);
    LowestIs(inv.emptySlots, 0);
    third := inv.StoreItem(z);
  }

  /**
    With B of part P equipped, equipping A of part P from the slot for
    inventory index 3 puts A in the map and force-writes B into index 3,
    with B's back-reference set to 3.
  */
  method EquipForcesPreviousIntoSlot(p: EquipmentPart) returns (a: Item, b: Item, equipped: Item?, atSlot: Item?, position: int)
    ensures a.part == Some(p) && b.part == Some(p)
    ensures equipped == a && atSlot == b && position == 3
  {
    a := new Item(Some(p));
    b := new Item(Some(p));
    var ctrl := new InventoryController();
    ctrl.EquipItemInSlot(InventorySlot(3, b));
    assert ctrl.playerEquipment == map[p := b];
    ctrl.EquipItemInSlot(InventorySlot(3, a));
    equipped := Equipped(ctrl.playerEquipment, p);
    atSlot := ctrl.inventory.FetchItemByPosition(3);
    position := b.inventoryPosition;
  }

  /**
    X is stored at free index 0 and Y of part P is equipped. Dragging Y's
    equipment slot onto empty inventory index 1 swaps indices 0 and 1,
    because an equipment slot's index is 0: X moves to 1, index 0 ends
    empty, and Y stays equipped.
  */
  method DragFromEquipmentSlotSwapsIndexZero(p: EquipmentPart) returns (x: Item, y: Item, equipped: Item?, atZero: Item?, atOne: Item?)
    ensures equipped == y && atZero == null && atOne == x
  {
    x := new Item(None);
    y := new Item(Some(p));
    var ctrl := new InventoryController();
    var stored := ctrl.inventory.StoreItemInPosition(x, 0, false);
    ctrl.EquipItemInSlot(InventorySlot(1, y));
    assert ctrl.playerEquipment == map[p := y];
    ctrl.SwapItemsInSlots(EquipmentSlot(p, y), InventorySlot(1, null));
    equipped := Equipped(ctrl.playerEquipment, p);
    atZero := ctrl.inventory.FetchItemByPosition(0);
    atOne := ctrl.inventory.FetchItemByPosition(1);
  }
}
