/** Optional values, used where the source has a null pointer or "no value yet". */
module Wrappers {
  datatype Option<T> = None | Some(value: T)
}
