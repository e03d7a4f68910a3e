/** Small value types shared by every module of the model. */
module Util {

  datatype Option<+T> = None | Some(value: T)

  /** Outcome of a script run: either its outputs, or the exception that stopped it. */
  datatype Result<+R, +E> = Success(value: R) | Failure(error: E)
}
