/** Optional values and results with an error, as the store's functions return them. */
module Wrappers {

  /** A value that may be absent: a missing key of a slot record, or Python's None. */
  datatype Option<+T> = None | Some(value: T)

  /** The value a call returns, or the exception it raises. */
  datatype Result<+T, +E> = Ok(value: T) | Err(error: E)
}
