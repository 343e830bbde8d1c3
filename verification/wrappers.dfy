/**
  Wrappers shared by the rest of the model: `Option` stands for a pointer
  that may be null, `Result` for a call that may throw.
 */
module Wrappers {

  datatype Option<+T> = None | Some(value: T)

  datatype Result<+R, +E> = Success(value: R) | Failure(error: E)
}
