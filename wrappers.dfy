/** Optional values: a size that JavaScript leaves `undefined` is `None`. */
module Wrappers {
  datatype Option<+T> = None | Some(value: T)
}
