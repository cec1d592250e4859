/** Failure-carrying datatypes shared by every layer of the model. */
module Wrappers {

  /** A JavaScript value that may be null/absent. */
  datatype Option<+T> = None | Some(value: T)

  /** The value of a call that can throw: the thrown error, or the result. */
  datatype Result<+R, +E> = Success(value: R) | Failure(error: E)

  /** A check that either passes or reports one error. */
  datatype Outcome<+E> = Pass | Fail(error: E)
}
