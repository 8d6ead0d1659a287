/** The two result types of the project: a value that may be missing, and a value or the reason for not having it. */
module Wrappers {

  datatype Option<+T> = None | Some(value: T)

  datatype Result<+T, +E> = Success(value: T) | Failure(error: E)
}
