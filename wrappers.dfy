/** Failure-carrying results used for the source's `assert_eq!` panics and for checked machine arithmetic. */
module Wrappers {

  datatype Option<+T> = None | Some(value: T)

  datatype Result<+T, +E> = Success(value: T) | Failure(error: E)
}
