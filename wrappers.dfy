/** Optional values: None stands where the Ruby code has nil. */
module Wrappers {
  datatype Option<+T> = None | Some(value: T)
}
