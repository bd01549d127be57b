/** Option and Result, used where the source returns a null pointer, throws, or signals absence. */
module Wrappers {

  datatype Option<+T> = None | Some(value: T)

  datatype Result<+R, +E> = Success(value: R) | Failure(error: E)
}
