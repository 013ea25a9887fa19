/** Optional values, the model's counterpart of fc::optional and of a missing lookup result. */
module Wrappers {
  datatype Option<+T> = None | Some(value: T)
}
