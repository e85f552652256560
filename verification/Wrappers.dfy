/** Optional results: a null pointer or a -1 return in the source is None. */
module Wrappers {
  datatype Option<+T> = None | Some(value: T)
}
