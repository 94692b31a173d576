/** Small failure-carrying datatypes shared by the model. */
module Wrappers {

  datatype Option<+T> = None | Some(value: T)

  /** The value of a computation, or the error it stopped with. */
  datatype Result<+R, +E> = Success(value: R) | Failure(error: E)

  /** Success or failure of a step that produces no value (a Go `error` that may be nil). */
  datatype Outcome<+E> = Pass | Fail(error: E)
}
