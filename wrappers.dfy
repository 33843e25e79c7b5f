/** Optional values: the `(value, ok)` and `nil`-or-not results of the library. */
module Wrappers {
  datatype Option<+T> = None | Some(value: T)
}
