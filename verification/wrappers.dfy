/** Failure-carrying values: the Dafny counterpart of Go's `(value, error)` returns. */
module Wrappers {

  /** Either the value a call produced or the error it reported. */
  datatype Result<+R, +E> = Success(value: R) | Failure(error: E)
}
