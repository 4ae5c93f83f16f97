/** Optional values: JavaScript's `undefined` (and, for arithmetic, NaN) is `None`. */
module Wrappers {
  datatype Option<+T> = None | Some(value: T)
}
