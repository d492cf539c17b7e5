/** Optional values and results with an error, shared by the modules. */
module Wrappers {
  datatype Option<T> = None | Some(value: T)
}
