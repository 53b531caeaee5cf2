/** Failure-carrying datatypes used for the error paths of the chat protocol:
    a Java exception that escapes an operation becomes a `Failure`. */
module Wrappers {

  datatype Option<+T> = None | Some(value: T)

  datatype Result<+R, +E> = Success(value: R) | Failure(error: E)
}
