/** Option and Result: the failure paths of the model (the source prints an
    error and exits, or raises). */
module Wrappers {

  datatype Option<+T> = None | Some(value: T)

  datatype Result<+T, +E> = Success(value: T) | Failure(error: E)
}
