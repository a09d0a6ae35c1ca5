/** Optional values, used by several models. */
module Wrappers {
  datatype Option<+T> = None | Some(value: T)
}
