/** Option and Result, used for the fields the source treats as possibly missing
    and for the errors its async operations throw. */
module Wrappers {

  datatype Option<+T> = None | Some(value: T)

  datatype Result<+T, +E> = Success(value: T) | Failure(error: E)
}
