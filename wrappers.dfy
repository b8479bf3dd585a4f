/** Option and Result, the two wrappers the rest of the model is built on. */
module Wrappers {

  datatype Option<+T> = None | Some(value: T)

  /** A handler's answer: a value on success, the reason for a 400 response otherwise. */
  datatype Result<+R, +E> = Success(value: R) | Failure(error: E)
}
