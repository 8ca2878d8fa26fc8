/** Optional values, used where the source answers "not found" with a sentinel. */
module Wrappers {
  datatype Option<+T> = None | Some(value: T)
}
