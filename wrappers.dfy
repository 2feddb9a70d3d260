/** Option and Result, used for Go's nil pointers and for the panic of a duplicate registration. */
module Wrappers {

  datatype Option<+T> = None | Some(value: T)

  datatype Result<+T, +E> = Success(value: T) | Failure(error: E)
}
