/** Optional values: a missing file, a failed management call, a line that yields nothing. */
module Wrappers {
  datatype Option<+T> = None | Some(value: T)
}
