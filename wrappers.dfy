/** Optional values, used for "no sample found" and for a reader that can fail. */
module Wrappers {
  datatype Option<+T> = None | Some(value: T)
}
