/** Optional values: the source's nullable references. */
module Wrappers {
  datatype Option<+T> = None | Some(value: T)
}
