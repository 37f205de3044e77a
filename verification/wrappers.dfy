/** The Option and Result datatypes used across the model. */
module Wrappers {

  /** A value that may be absent. */
  datatype Option<+T> = None | Some(value: T)

  /** Either a value or an error describing why there is none. */
  datatype Result<+R, +E> = Success(value: R) | Failure(error: E)
}
