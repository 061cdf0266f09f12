/**
  The logic half of the inventory controller: an equipment map from part to
  item, the inventory, and the equip, unequip and swap operations that move
  items between them. The display refreshes the source calls after each
  operation only copy state into the UI and are left out.
*/
module Controller {
  import opened Wrappers
  import opened Parts
  import opened Items
  import opened InventoryStore

  /**
    The data fields of a UI slot: its inventory index, the part of an
    equipment slot, and the item it currently shows.
  */
  datatype Slot = Slot(slotPosition: int, part: Option<EquipmentPart>, item: Item?)
  {
    predicate IsEquipmentSlot()
    {
      part.Some?
    }
  }

  /** An equipment slot as the UI builds it: the index is never set, so it is 0. */
  function EquipmentSlot(p: EquipmentPart, item: Item?): (s: Slot)
    ensures s.IsEquipmentSlot() && s.slotPosition == 0
  {
    Slot(0, Some(p), item)
  }

  /** An inventory slot as the UI builds it for index `i`. */
  function InventorySlot(i: int, item: Item?): (s: Slot)
    ensures !s.IsEquipmentSlot() && s.slotPosition == i
  {
    Slot(i, None, item)
  }

  /** The item-database lookup: the entry for `guid`, or null when there is none. */
  function GetItemByGuid(database: map<string, Item>, guid: string): (r: Item?)
    ensures r != null <==> guid in database
    ensures r != null ==> database[guid] == r
  {
    if guid in database then database[guid] else null
  }

  /** The item equipped on `p`, or null when the map has no entry for it. */
  function Equipped(equipment: map<EquipmentPart, Item?>, p: EquipmentPart): Item?
  {
    if p in equipment then equipment[p] else null
  }

  /** The item equipping what `slot` shows would displace: the one equipped on its part, if any. */
  function Displaced(equipment: map<EquipmentPart, Item?>, slot: Slot): (d: Item?)
    ensures d != null ==> slot.item != null && slot.item.part.Some? && d in equipment.Values
  {
    if slot.item != null && slot.item.part.Some? then Equipped(equipment, slot.item.part.value) else null
  }

  /** The map's values, taken in the order of `parts`. */
  function ValuesInOrder(equipment: map<EquipmentPart, Item?>, parts: seq<EquipmentPart>): (vs: seq<Item?>)
    ensures |vs| <= |parts|
    ensures forall v :: v in vs ==> v in equipment.Values
  {
    if parts == [] then []
    else if parts[0] in equipment then [equipment[parts[0]]] + ValuesInOrder(equipment, parts[1..])
    else ValuesInOrder(equipment, parts[1..])
  }

  lemma {:induction false} ValuesInOrderListsEach(equipment: map<EquipmentPart, Item?>, parts: seq<EquipmentPart>)
    ensures forall p :: p in parts && p in equipment ==> equipment[p] in ValuesInOrder(equipment, parts)
  {
    if parts != [] {
      ValuesInOrderListsEach(equipment, parts[1..]);
      assert forall p :: p in parts ==> p == parts[0] || p in parts[1..];
    }
  }

  lemma {:induction false} ValuesInOrderLength(equipment: map<EquipmentPart, Item?>, parts: seq<EquipmentPart>)
    requires DistinctParts(parts)
    ensures |ValuesInOrder(equipment, parts)| == |set p | p in parts && p in equipment|
  {
    if parts != [] {
      ValuesInOrderLength(equipment, parts[1..]);
      var tail := set p | p in parts[1..] && p in equipment;
      assert parts[0] !in parts[1..];
      if parts[0] in equipment {
        assert (set p | p in parts && p in equipment) == {parts[0]} + tail;
      } else {
        assert (set p | p in parts && p in equipment) == tail;
      }
    }
  }

  /** `vs` has one element per entry of the map and holds exactly the map's values. */
  ghost predicate ListsEachValue(vs: seq<Item?>, equipment: map<EquipmentPart, Item?>)
  {
    && |vs| == |equipment|
    && (forall i :: 0 <= i < |vs| ==> vs[i] in equipment.Values)
    && (forall p :: p in equipment ==> equipment[p] in vs)
  }

  /** Listing the map over every part gives each value of the map, one per entry. */
  lemma EquippedItemsMatchMap(equipment: map<EquipmentPart, Item?>)
    ensures ListsEachValue(ValuesInOrder(equipment, AllParts), equipment)
  {
    AllPartsListsEveryPartOnce(Head);
    ValuesInOrderLength(equipment, AllParts);
    ValuesInOrderListsEach(equipment, AllParts);
    forall p | true ensures p in AllParts {
      AllPartsListsEveryPartOnce(p);
    }
    assert (set p | p in AllParts && p in equipment) == equipment.Keys;
  }

  class InventoryController {
    const inventory: Inventory
    /** The player's equipment, one entry per part that has been equipped or swapped into. */
    var playerEquipment: map<EquipmentPart, Item?>
    /** The snapshot of the equipment's values, refreshed after each equip. */
    var equippedItems: seq<Item?>

    ghost predicate Valid()
      reads this, inventory
    {
      inventory.Valid()
    }

    /** Every equipped item carries the tag of the part it is equipped on. */
    ghost predicate PartsMatch()
      reads this
    {
      forall p :: p in playerEquipment && playerEquipment[p] != null ==> playerEquipment[p].part == Some(p)
    }

    constructor ()
      ensures Valid() && fresh(inventory) && fresh(inventory.slots)
      ensures inventory.Consistent() && forall i :: i in inventory.emptySlots <==> 0 <= i < Size
      ensures playerEquipment == map[] && equippedItems == []
      ensures PartsMatch()
    {
      inventory := new Inventory();
      playerEquipment := map[];
      equippedItems := [];
    }

    /**
      Equips the item a slot shows. The previously equipped item of the same
      part, or null, is force-written into the slot's inventory index, whatever
      that index held. Nothing happens when the slot shows no item or an item
      without a part.
    */
    method EquipItemInSlot(slot: Slot)
      requires Valid() && 0 <= slot.slotPosition < Size
      modifies this, inventory, inventory.slots, Displaced(playerEquipment, slot)
      ensures Valid()
      ensures slot.item == null || slot.item.part.None? ==>
        && playerEquipment == old(playerEquipment)
        && equippedItems == old(equippedItems)
        && inventory.slots[..] == old(inventory.slots[..])
        && inventory.emptySlots == old(inventory.emptySlots)
      ensures slot.item != null && slot.item.part.Some? ==>
        var p := slot.item.part.value;
        var previous := Equipped(old(playerEquipment), p);
        && playerEquipment == old(playerEquipment)[p := slot.item]
        && inventory.slots[..] == old(inventory.slots[..])[slot.slotPosition := previous]
        && inventory.emptySlots == MarkFree(old(inventory.emptySlots), slot.slotPosition, previous == null)
        && (previous != null ==> previous.inventoryPosition == slot.slotPosition)
        && equippedItems == ValuesInOrder(playerEquipment, AllParts)
        && ListsEachValue(equippedItems, playerEquipment)
      ensures old(inventory.Consistent()) ==> inventory.Consistent()
      ensures old(PartsMatch()) ==> PartsMatch()
    {
      if slot.item == null || slot.item.part.None? {
        return;
      }
      var part := slot.item.part.value;
      var equippedItem := Displaced(playerEquipment, slot);
      playerEquipment := playerEquipment[part := slot.item];
      var _ := inventory.StoreItemInPosition(equippedItem, slot.slotPosition, true);
      equippedItems := ValuesInOrder(playerEquipment, AllParts);
      EquippedItemsMatchMap(playerEquipment);
    }

    /**
      Unequips the item an equipment slot shows into the lowest free inventory
      index, and returns the slot record cleared. Nothing happens when the
      inventory is full or the slot shows no item.
    */
    method UnequipItemInSlot(slot: Slot) returns (slot': Slot)
      requires Valid()
      requires inventory.HasFreeSlot() && slot.item != null ==> slot.IsEquipmentSlot()
      modifies this, inventory, inventory.slots, slot.item
      ensures Valid()
      ensures equippedItems == old(equippedItems)
      ensures !old(inventory.HasFreeSlot()) || slot.item == null ==>
        && slot' == slot
        && (slot.item != null ==> slot.item.inventoryPosition == old(slot.item.inventoryPosition))
        && playerEquipment == old(playerEquipment)
        && inventory.slots[..] == old(inventory.slots[..])
        && inventory.emptySlots == old(inventory.emptySlots)
      ensures old(inventory.HasFreeSlot()) && slot.item != null ==>
        var k := Lowest(old(inventory.emptySlots));
        && slot' == slot.(item := null)
        && playerEquipment == old(playerEquipment) - {slot.part.value}
        && inventory.slots[..] == old(inventory.slots[..])[k := slot.item]
        && inventory.emptySlots == old(inventory.emptySlots) - {k}
        && slot.item.inventoryPosition == k
      ensures old(inventory.Consistent()) ==> inventory.Consistent()
      ensures old(PartsMatch()) ==> PartsMatch()
    {
      if !inventory.HasFreeSlot() || slot.item == null {
        return slot;
      }
      var item := slot.item;
      slot' := slot.(item := null);
      playerEquipment := playerEquipment - {slot.part.value};
      var _ := inventory.StoreItem(item);
    }

    /**
      Swaps the inventory indices of two slots and, when either slot is an
      equipment slot, sets the origin's part to the item the origin slot
      showed. An equipment slot's index is 0, so dragging from one swaps
      inventory index 0 with the target.
    */
    method SwapItemsInSlots(origin: Slot, target: Slot)
      requires Valid() && 0 <= origin.slotPosition < Size && 0 <= target.slotPosition < Size
      requires target.IsEquipmentSlot() ==> origin.IsEquipmentSlot()
      modifies this, inventory, inventory.slots
      ensures Valid()
      ensures equippedItems == old(equippedItems)
      ensures
        var a := origin.slotPosition;
        var b := target.slotPosition;
        && inventory.slots[..] == old(inventory.slots[..])[a := old(inventory.slots[b])][b := old(inventory.slots[a])]
        && (a in inventory.emptySlots <==> inventory.slots[a] == null)
        && (b in inventory.emptySlots <==> inventory.slots[b] == null)
        && inventory.emptySlots - {a, b} == old(inventory.emptySlots) - {a, b}
      ensures origin.IsEquipmentSlot() || target.IsEquipmentSlot() ==>
        playerEquipment == old(playerEquipment)[origin.part.value := origin.item]
      ensures !origin.IsEquipmentSlot() && !target.IsEquipmentSlot() ==>
        playerEquipment == old(playerEquipment)
      ensures old(inventory.Consistent()) ==> inventory.Consistent()
      ensures old(PartsMatch()) && (origin.item == null || origin.item.part == origin.part) ==> PartsMatch()
    {
      var _ := inventory.SwapSlotItems(origin.slotPosition, target.slotPosition);
      if origin.IsEquipmentSlot() || target.IsEquipmentSlot() {
        var part := origin.part.value;
        playerEquipment := playerEquipment[part := origin.item];
      }
    }
  }
}
