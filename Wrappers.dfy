/** Optional values: JavaScript's `undefined` and "not found" results. */
module Wrappers {

  datatype Option<+T> = None | Some(value: T)
}
