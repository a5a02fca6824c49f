/** Optional values, for a lookup that may find nothing, and results that carry either a value or an error. */
module Wrappers {

  datatype Option<+T> = None | Some(value: T)

  datatype Result<+T, +E> = Ok(value: T) | Err(error: E)
}
