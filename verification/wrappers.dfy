/** The usual failure-carrying datatypes: a value that may be absent (a Java
    null or a failed parse) and a value or an error (a thrown exception). */
module Wrappers {

  datatype Option<+T> = None | Some(value: T)

  datatype Result<+T, +E> = Success(value: T) | Failure(error: E)
}
