/** Failure-carrying result types used by the operations of the model. */
module Outcomes {

  /** An optional value, used for lookups that may find nothing. */
  datatype Option<+T> = None | Some(value: T)

  /** The result of an operation that either succeeds with a value or fails with an error. */
  datatype Result<+R, +E> = Success(value: R) | Failure(error: E)
}
