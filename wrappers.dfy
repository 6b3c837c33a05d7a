/** Optional values: Python's `None` and the values that are not. */
module Wrappers {
  datatype Option<+T> = None | Some(value: T)
}
