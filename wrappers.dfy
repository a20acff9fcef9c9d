/** Optional values: JavaScript's `null` (or a missing property) next to a present value. */
module Wrappers {

  datatype Option<+T> = None | Some(value: T)
}
