/** Optional values, standing for pandas' NaN-filled rows and for parses that fail. */
module Wrappers {
  datatype Option<+T> = None | Some(value: T)

  /** The outcome of an operation that can raise instead of returning. */
  datatype Result<+T, +E> = Success(value: T) | Failure(error: E)
}
