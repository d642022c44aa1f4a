/** Optional values: JavaScript's `null` / `undefined` on the way in and out. */
module Wrappers {
  datatype Option<+T> = None | Some(value: T)
}
