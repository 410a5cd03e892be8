/** Option and Result values standing in for the `null` results and thrown errors of the service. */
module Wrappers {

  /** A value that may be absent (`T | null` in the service). */
  datatype Option<+T> = None | Some(value: T)

  /** The outcome of an operation that either returns a value or fails with an error. */
  datatype Result<+R, +E> = Success(value: R) | Failure(error: E)
}
