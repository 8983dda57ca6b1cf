/** Optional values and results with an error, standing for the source's nulls and exceptions. */
module Wrappers {

  /** A value that may be absent: `null` in the source. */
  datatype Option<+T> = None | Some(value: T)

  /** The outcome of an operation that can fail instead of returning. */
  datatype Result<+R, +E> = Success(value: R) | Failure(error: E)
}
