/** The Option, Result and Outcome datatypes shared by the other modules. */
module Wrappers {

  datatype Option<+T> = None | Some(value: T)

  /** A value or the exception that the operation raised instead. */
  datatype Result<+T, +E> = Success(value: T) | Failure(error: E)

  /** Normal return or a raised exception, for operations that return nothing. */
  datatype Outcome<+E> = Pass | Fail(error: E)
}
