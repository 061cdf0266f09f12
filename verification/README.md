# Inventory slot bookkeeping and equipment orchestration, in Dafny

This project models the logic core of a Unity inventory sample: a fixed-size
inventory of 18 slots that each hold an optional item, together with the set
of slot indices it considers free, and the controller that moves items
between that inventory and an equipment map (one entry per equipment part).

- `Wrappers.dfy`: `Option`, for the source's nullable `EquipmentPart?`.
- `Parts.dfy`: `EquipmentPart`, a closed enumeration, and the list of all parts.
- `Items.dfy`: class `Item`. It has its part tag and the mutable
  back-reference `inventoryPosition`.
- `InventoryStore.dfy`: class `Inventory`. It holds the array `slots: array<Item?>`
  and the free set `emptySlots: set<int>`. Every operation of the source class
  is a method or a function with its full effect as its contract. The same file
  holds a value view (`Store`) and the spec functions `Stored`/`StoredMany`,
  which say what storing one item and a list of items does.
- `InventoryProperties.dfy`: lemmas about storing lists of items.
- `Controller.dfy`: the UI slot record `Slot` and class `InventoryController`
  (item lookup, equip, unequip, swap).
- `Scenarios.dfy`: concrete runs from a fresh state, with their results as
  postconditions.

The central invariant is "an index is free iff its slot is empty"
(`Inventory.Consistent`, `FreeIffEmpty`). Each method states whether it keeps it:
- `StoreItem`, `StoreMany`, `StoreItemInPosition` and `SwapSlotItems` keep it.
- Equip, unequip and swap in the controller keep it.
- `SwapItemInPosition` with a null item on an occupied slot breaks it.
- `RemoveItemFromSlot` breaks it on every occupied slot.

A second invariant is "every held item's back-reference names its slot"
(`PositionsAgree`):
- `StoreItem` and `StoreItemInPosition` keep it, provided the item is not
  already held in another slot. Writing null with `StoreItemInPosition`
  always keeps it.
- `SwapSlotItems` breaks it whenever it moves an item.

In these places the model follows the code rather than its doc comments:
- Removing an item does not clear the slot (see Findings).
- `SwapItemInPosition` never writes the array. It only moves back-references
  and free-set membership.

After swapping two slots, the controller sets the origin slot's part in the
equipment map to the item the origin slot record showed before the swap
(`InventoryController.cs:97-101`).

## Model

| member | source | states |
|---|---|---|
| `InventoryStore.Inventory.constructor` | Assets/Scripts/Inventory/Inventory.cs:15-24 | a fresh inventory has 18 null slots, free set {0..17}, the invariant holds and `HasFreeSlot()` is true |
| `InventoryStore.Range` | Assets/Scripts/Inventory/Inventory.cs:23 | the index range is exactly the integers from `lo` below `hi` |
| `InventoryStore.Inventory.HasFreeSlot` | Assets/Scripts/Inventory/Inventory.cs:30 | under the invariant, true iff some slot of the array is empty |
| `InventoryStore.Lowest` | Assets/Scripts/Inventory/Inventory.cs:132 | ordering the free set and taking the first element gives an element that is below or equal to every other |
| `InventoryStore.Inventory.FirstFreeSlot` | Assets/Scripts/Inventory/Inventory.cs:130-135 | reports whether the free set is non-empty; if so, returns its minimum (an empty slot under the invariant), else -1 |
| `InventoryStore.Stored` | Assets/Scripts/Inventory/Inventory.cs:48-62 | storing keeps the inventory well formed (18 slots, in-range free indices) |
| `InventoryStore.Inventory.StoreItem` | Assets/Scripts/Inventory/Inventory.cs:48-62 | returns -1 and changes nothing for a null item or empty free set; otherwise writes the item at the minimum free index (the one `FirstFreeSlot` reports), removes it from the free set, sets the back-reference and touches no other slot; keeps "free iff empty", and keeps the back-reference invariant when the item was not already held in a slot |
| `InventoryStore.StoredMany` | Assets/Scripts/Inventory/Inventory.cs:36-40 | storing a list keeps the inventory well formed |
| `InventoryStore.Inventory.StoreMany` | Assets/Scripts/Inventory/Inventory.cs:36-40 | the new state is the fold of single stores over the list; each listed item's back-reference is the index its last successful store took, and is unchanged when none of its stores succeeded (full inventory, or past capacity); with distinct items every index it filled holds an item whose back-reference is that index |
| `InventoryProperties.StoredKeepsFreeIffEmpty` | Assets/Scripts/Inventory/Inventory.cs:56-58 | one store keeps "free iff empty" and only ever writes into an empty slot |
| `InventoryProperties.StoredManyKeepsFreeIffEmpty` | Assets/Scripts/Inventory/Inventory.cs:36-40 | storing a list keeps "free iff empty" |
| `InventoryStore.StoredManyTakesFreeSlots` | Assets/Scripts/Inventory/Inventory.cs:36-40 | storing a list only removes indices from the free set and leaves every slot it did not take unchanged |
| `InventoryProperties.StoredManyCount` | Assets/Scripts/Inventory/Inventory.cs:36-40 | the number of indices taken is the smaller of the free count and the number of non-null items; the rest are dropped silently |
| `InventoryProperties.StoredManyFillsLowest` | Assets/Scripts/Inventory/Inventory.cs:53-56 | every index taken is below every index still free, and each holds one of the stored items |
| `InventoryStore.PlacementsFill` | Assets/Scripts/Inventory/Inventory.cs:36-40 | each successful store of a list was of a non-null item, took an index that was free, and that index holds the item when the list is done |
| `InventoryStore.PlacementsCover` | Assets/Scripts/Inventory/Inventory.cs:36-40 | every index a list store took was taken by one of its single stores |
| `InventoryStore.LastPlacementOfDistinct` | Assets/Scripts/Inventory/Inventory.cs:36-40 | with no item listed twice, the last placement of a stored item is the index it got |
| `InventoryProperties.StoredManyKeepsFirst` | Assets/Scripts/Inventory/Inventory.cs:36-40 | the i-th store of a list succeeds iff its item is non-null and fewer non-null items than there are free indices came before it: the first items that fit are kept, the rest dropped |
| `InventoryProperties.StoredManyPlacesInOrder` | Assets/Scripts/Inventory/Inventory.cs:36-40 | the successful stores of a list take strictly increasing indices, in list order |
| `InventoryProperties.LastPlacementNone` | Assets/Scripts/Inventory/Inventory.cs:54 | an item's last placement in a list store is -1 iff none of its stores succeeded |
| `InventoryProperties.LastPlacementFound` | Assets/Scripts/Inventory/Inventory.cs:59 | otherwise it is the index taken by a store of the item after which no store of it succeeded |
| `InventoryProperties.StoredManyOnFullIsNoOp` | Assets/Scripts/Inventory/Inventory.cs:54 | on a full inventory storing any list changes nothing |
| `InventoryProperties.NonNullCount` | Assets/Scripts/Inventory/Inventory.cs:50 | counts the items a store does not reject as null; never more than the list length |
| `InventoryStore.Inventory.SwapItemInPosition` | Assets/Scripts/Inventory/Inventory.cs:70-89 | never writes the array; returns `(item, occupant)`; both null: no change; non-null item: its position becomes `position`, a distinct occupant gets the item's old position, and an empty target is added to the free set; null item on an occupied slot adds the index to the free set and breaks the invariant |
| `InventoryStore.Inventory.StoreItemInPosition` | Assets/Scripts/Inventory/Inventory.cs:98-116 | without force on a non-free index returns false and changes nothing; otherwise writes the slot, sets the back-reference of a non-null item, removes the index from the free set (or adds it for null) and returns true; keeps "free iff empty", and keeps the back-reference invariant when the item is null or held in no other slot |
| `InventoryStore.Inventory.SlotPositionIsFree` | Assets/Scripts/Inventory/Inventory.cs:123 | under the invariant, true iff the slot is empty; always false for an index outside 0..17 |
| `InventoryStore.Inventory.FetchItem` | Assets/Scripts/Inventory/Inventory.cs:143 | returns the item itself iff some slot holds it, null otherwise; when back-references agree, the result sits at its recorded position |
| `InventoryStore.Inventory.FetchItemByPosition` | Assets/Scripts/Inventory/Inventory.cs:150 | under the invariant the result is null iff the index is free; the result is one of the held items |
| `InventoryStore.Inventory.Items` | Assets/Scripts/Inventory/Inventory.cs:18 | returns a fresh array with the same contents as the slots |
| `InventoryStore.Inventory.RemoveItemFromSlot` | Assets/Scripts/Inventory/Inventory.cs:157-166 | on a free index returns null with no change; otherwise returns the occupant and adds the index to the free set, but the array keeps the item, so the invariant is broken |
| `InventoryStore.Inventory.RemoveItemFromSlotCleared` | Assets/Scripts/Inventory/Inventory.cs:157-166 | the corrected removal also nulls the slot and keeps the invariant |
| `InventoryStore.Inventory.SwapSlotItems` | Assets/Scripts/Inventory/Inventory.cs:174-189 | exchanges the two slots and returns their old contents; each index's free membership matches its new emptiness; the other indices and all back-references are untouched; `a == b` leaves the array unchanged; keeps the free/empty invariant and breaks the back-reference one whenever an item moves (either slot occupied and `a != b`) |
| `Items.Item.constructor` | Assets/Scripts/Inventory/Item.cs:15-16 | a new item carries the given part tag |
| `Controller.Slot.IsEquipmentSlot` | Assets/Scripts/Inventory/InventorySlot.cs:19 | a slot is an equipment slot iff it has a part |
| `Controller.EquipmentSlot` | Assets/Scripts/Inventory/InventoryController.UI.cs:77 | an equipment slot record has a part and inventory index 0 |
| `Controller.InventorySlot` | Assets/Scripts/Inventory/InventoryController.UI.cs:62 | an inventory slot record has no part and the given index |
| `Controller.Displaced` | Assets/Scripts/Inventory/InventoryController.cs:59-60 | the item an equip displaces is null unless the slot shows a tagged item, and is then a value of the equipment map |
| `Controller.GetItemByGuid` | Assets/Scripts/Inventory/InventoryController.cs:26 | non-null iff the GUID is a key of the database, and then the database entry |
| `Controller.ValuesInOrder` | Assets/Scripts/Inventory/InventoryController.cs:68 | the listed values are values of the map, no more than one per part |
| `Controller.ValuesInOrderListsEach` | Assets/Scripts/Inventory/InventoryController.cs:68 | every map value whose part is in the list appears in the listing |
| `Controller.ValuesInOrderLength` | Assets/Scripts/Inventory/InventoryController.cs:68 | over distinct parts, the listing has one element per listed part that the map holds |
| `Controller.EquippedItemsMatchMap` | Assets/Scripts/Inventory/InventoryController.cs:68 | the equipped-items snapshot has exactly one element per map entry and holds exactly the map's values |
| `Controller.InventoryController.constructor` | Assets/Scripts/Inventory/InventoryController.cs:17-19 | a new controller has an empty, consistent inventory and no equipment |
| `Controller.InventoryController.EquipItemInSlot` | Assets/Scripts/Inventory/InventoryController.cs:55-69 | no change when the slot shows no item or an untagged one; otherwise the map maps P to the item with other parts unchanged, the previous item of P (or null) is force-written into the slot's index whatever it held, and the previous item's back-reference is the only one that can change (the frame names only it); that index ends free exactly when nothing was equipped, the snapshot is rebuilt from the map and holds exactly its values, one per entry; keeps the invariant and part tags |
| `Controller.InventoryController.UnequipItemInSlot` | Assets/Scripts/Inventory/InventoryController.cs:76-86 | no change when the inventory has no free slot or the slot shows no item (the item's back-reference included); otherwise removes the slot's part from the map, clears the slot record, and stores the item at the lowest free index (never failing); snapshot untouched; keeps the invariant |
| `Controller.InventoryController.SwapItemsInSlots` | Assets/Scripts/Inventory/InventoryController.cs:93-107 | swaps the inventory indices of the two slot records; if either is an equipment slot the origin's part is mapped to the item the origin record showed before the swap, else the map is unchanged; keeps the invariant |
| `Scenarios.LowestFreeIndexIsReused` | Assets/Scripts/Inventory/Inventory.cs:157-166 | from empty: store X gives 0, store Y gives 1, removing 0 returns X yet X is still in slot 0, storing Z reuses 0 |
| `Scenarios.EquipForcesPreviousIntoSlot` | Assets/Scripts/Inventory/InventoryController.cs:59-63 | with B of part P equipped, equipping A of P from index 3 maps P to A and forces B into index 3 with its back-reference set |
| `Scenarios.DragFromEquipmentSlotSwapsIndexZero` | Assets/Scripts/Inventory/InventoryController.cs:95-100 | with X written into free index 0 and Y equipped on P, dragging Y's equipment slot onto empty index 1 swaps indices 0 and 1 (X ends at 1, index 0 empty) and leaves Y equipped |

## Left out

- The UI half of the controller (`InventoryController.UI.cs`) is not modelled: drag and drop, the ghost icon, pointer events and overlap and distance geometry. The `UIUpdateInventorySlots` and `UIUpdateEquipmentSlots` refreshes only copy state into visual elements, so they have no modelled effect.
- `InventorySlot` is a visual element. Only its data fields are modelled, as the `Slot` record. Icons, style classes and event registration are left out. `HoldItem(null)` in unequip is modelled as returning the cleared record.
- `ItemFactory`, `SpriteCollection` and `Enum` are left out. They use random GUIDs, random colours and asset loading.
- `PopulateDatabase`, `Awake` and `Start` are Unity start-up hooks over the factory, so they are left out.
- The static item database is passed to `GetItemByGuid` as a parameter.
- `Item`'s name, GUID, icon and colour are opaque to the logic and left out.
- `Item.Part` is a public mutable field, but nothing writes it after creation, so it is a `const`.
- The concrete members of `EquipmentPart` are not in the sources. Six stand-in tags are used.
- The unused public `size` field is not modelled. The capacity is the constant 18.
- `Controller.InventoryController.EquipItemInSlot`: lists `equippedItems` in part declaration order. The source lists them in the dictionary's enumeration order, which the model does not fix. `EquippedItemsMatchMap` proves the order-free property: one element per entry, exactly the map's values.
- `Controller.InventoryController.SwapItemsInSlots`: the source casts the origin's part, and that cast throws when the target is an equipment slot and the origin is not. That throw happens after the inventory swap. The model excludes this path by a precondition.
- `Controller.InventoryController.UnequipItemInSlot`: the cast of a null part throws. The model excludes it by a precondition. The UI only unequips from equipment slots.
- Out-of-range slot indices make the source throw an index error. The methods require in-range indices wherever the source would index the array.
- The source finds the lowest free index by sorting the set and taking the first element. It also relies on a hash set keeping that order once rebuilt. The model states the result as the set's minimum, `Lowest`.

## Findings

| source | as written | input that shows it | evidently intended | confidence | as-written member | corrected member |
|---|---|---|---|---|---|---|
| Assets/Scripts/Inventory/Inventory.cs:161-162 | the slot is cleared through `Items`, which returns a copy of the array, so the backing array keeps the item while the index is added to the free set | empty inventory, store X (slot 0), `RemoveItemFromSlot(0)` returns X, and slot 0 still holds X | the slot becomes null, so "free iff empty" holds afterwards | high (not executed) | `InventoryStore.Inventory.RemoveItemFromSlot` | `InventoryStore.Inventory.RemoveItemFromSlotCleared` |
