/** Option and Result, the failure-carrying values used in place of None and exceptions. */
module Wrappers {

  datatype Option<+T> = None | Some(value: T)

  /** `Success` for a normal return, `Failure` for a raised error. */
  datatype Result<+T, +E> = Success(value: T) | Failure(error: E)
}
