/** Failure-carrying datatypes shared by the calculator model. */
module Wrappers {

  /** A value that may be absent: JavaScript's `NaN` or `null` results. */
  datatype Option<+T> = None | Some(value: T)

  /** A value or an error report. */
  datatype Result<+T, +E> = Success(value: T) | Failure(error: E)
}
