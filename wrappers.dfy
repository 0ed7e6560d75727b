/** Optional values, for results the source signals with a nil error or a missing value. */
module Wrappers {
  datatype Option<+T> = None | Some(value: T)
}
