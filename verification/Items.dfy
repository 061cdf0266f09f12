/**
  An item is a reference object. Of its fields only the equipment-part tag and
  the cached inventory position matter to the inventory logic; the name, the
  identifier, the icon and the colour are opaque and are left out.
*/
module Items {
  import opened Wrappers
  import opened Parts

  class Item {
    /** The equipment part the item can be worn on, if any. Never reassigned after creation. */
    const part: Option<EquipmentPart>
    /** Back-reference to the inventory slot that last received the item. */
    var inventoryPosition: int

    constructor (part: Option<EquipmentPart>)
      ensures this.part == part && inventoryPosition == 0
    {
      this.part := part;
      inventoryPosition := 0;
    }
  }
}
