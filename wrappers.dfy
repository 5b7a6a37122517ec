/** Optional values and the success/failure of an asynchronous step. */
module Wrappers {

  /** A JavaScript value that may be `null` or `undefined`. */
  datatype Option<+T> = None | Some(value: T)

  /** A settled promise: fulfilled with a value, or rejected with an error message. */
  datatype Result<+T, +E> = Ok(value: T) | Err(error: E)
}
