/** Failure-carrying results, standing in for the exceptions the script lets propagate. */
module Wrappers {

  datatype Option<+T> = None | Some(value: T)

  datatype Result<+R, +E> = Success(value: R) | Failure(error: E)
}
