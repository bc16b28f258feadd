/** Absence and failure as values: `Option` stands for a Java reference that
    may be null, `Outcome` for a void method that may throw, `Result` for a
    method that returns a value or throws. */
module Wrappers {

  datatype Option<+T> = None | Some(value: T)

  datatype Outcome<+E> = Pass | Fail(error: E)

  datatype Result<+R, +E> = Success(value: R) | Failure(error: E)
}
