/** Optional values: the model's stand-in for the NULL returns of the decoder. */
module Wrappers {
  datatype Option<+T> = None | Some(value: T)
}
