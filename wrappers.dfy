/** Failure-carrying results used by every handler of the user directory. */
module Wrappers {

  datatype Option<+T> = None | Some(value: T)

  /** Success carries the response body; Failure carries what the handler raises. */
  datatype Result<+R, +E> = Success(value: R) | Failure(error: E)
}
