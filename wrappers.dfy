/** Optional values: an absent field of a record, or an element the page does not hold. */
module Wrappers {
  datatype Option<+T> = None | Some(value: T)
}
