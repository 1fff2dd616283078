/** Optional values: a C pointer that may be NULL, an option that may be unset. */
module Wrappers {
  datatype Option<T> = None | Some(value: T)
}
