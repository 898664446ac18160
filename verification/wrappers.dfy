/** Optional values: JavaScript's `undefined`/`null` and Python's missing keys. */
module Wrappers {
  datatype Option<+T> = None | Some(value: T)
}
