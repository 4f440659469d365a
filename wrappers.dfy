/** Optional values: pandas yields NaN where a split has no such token. */
module Wrappers {
  datatype Option<+T> = None | Some(value: T)
}
