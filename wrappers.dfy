/** Optional values, used where the source would read an unset reference. */
module Wrappers {
  datatype Option<+T> = None | Some(value: T)
}
