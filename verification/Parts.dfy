/**
  The closed enumeration of equipment parts. The game's concrete enumeration
  is not part of this model: any finite, fixed list of tags behaves the same
  for the inventory and the equipment map, so six stand-in tags are used.
*/
module Parts {
  datatype EquipmentPart = Head | Chest | Hands | Legs | Feet | Weapon

  /** Every part once, in declaration order (the order `Enum.GetValues` yields). */
  const AllParts: seq<EquipmentPart> := [Head, Chest, Hands, Legs, Feet, Weapon]

  /** No part is listed twice. */
  predicate DistinctParts(parts: seq<EquipmentPart>)
  {
    forall i, j :: 0 <= i < j < |parts| ==> parts[i] != parts[j]
  }

  lemma AllPartsListsEveryPartOnce(p: EquipmentPart)
    ensures p in AllParts && DistinctParts(AllParts)
  {
  }
}
