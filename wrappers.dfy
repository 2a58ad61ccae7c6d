/** Optional values: a tracking query that may report nothing, a pointer
    without a hit result, a hit without an object. */
module Wrappers {
  datatype Option<+T> = None | Some(value: T)
}
