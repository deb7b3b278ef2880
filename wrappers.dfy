/** Optional values, used wherever the source returns `None`, `False` or fails on a path. */
module Wrappers {
  datatype Option<+T> = None | Some(value: T)
}
