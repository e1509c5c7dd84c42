/** Optional values and success/failure results shared by the modules of the model. */
module Wrappers {

  datatype Option<+T> = None | Some(value: T)

  /** The outcome of a step that may raise: the value, or the message of the exception. */
  datatype Result<+R, +E> = Success(value: R) | Failure(error: E)
}
