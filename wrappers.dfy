/** Optional values: the model's stand-in for a field or result that may be absent. */
module Wrappers {
  datatype Option<+T> = None | Some(value: T)
}
