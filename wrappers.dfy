/** Optional values: Python's `None` and the absent results of parsing. */
module Wrappers {
  datatype Option<+T> = None | Some(value: T)
}
