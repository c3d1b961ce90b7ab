/** Optional values and results with an error, as the rest of the model uses them. */
module Wrappers {

  /** A value that may be absent (Python's None). */
  datatype Option<+T> = None | Some(value: T)

  /** A value, or the error that stopped its computation. */
  datatype Result<+R, +E> = Success(value: R) | Failure(error: E)
}
