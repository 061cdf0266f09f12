/** Optional values, for the source's nullable value types (`EquipmentPart?`). */
module Wrappers {
  datatype Option<+T> = None | Some(value: T)
}
