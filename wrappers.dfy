/** Error-carrying and optional values, for the places where the program raises or leaves a name unset. */
module Wrappers {

  datatype Option<+T> = None | Some(value: T)

  datatype Result<+T, +E> = Success(value: T) | Failure(error: E)
}
