/** Failure-carrying values shared by the path and store modules. */
module Wrappers {

  /** An optional value: `None` where the handler returns Python's `None`. */
  datatype Option<+T> = None | Some(value: T)

  /** Either the value an operation returns or the error it raises. */
  datatype Result<+T, +E> = Success(value: T) | Failure(error: E)
}
