/** Optional values, used for a file that may be absent and for a pattern that may not match. */
module Wrappers {
  datatype Option<+T> = None | Some(value: T)
}
