/** Optional values, used for results that the C code signals with NULL or a sentinel handle. */
module Wrappers {
  datatype Option<+T> = None | Some(value: T)
}
