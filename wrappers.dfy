/** Optional values, used for Go's `error` results and for an absent cookie. */
module Wrappers {
  datatype Option<+T> = None | Some(value: T)
}
