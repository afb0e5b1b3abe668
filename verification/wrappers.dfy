/** Failure-carrying result types: the model's stand-in for C++ exceptions and
    for SQL NULL columns. */
module Wrappers {

  datatype Option<+T> = None | Some(value: T)

  /** Success with a value, or Failure with the text the C++ exception carries
      in `what()`. */
  datatype Result<+R> = Success(value: R) | Failure(error: string)

  /** An operation that returns nothing but may throw. */
  datatype Outcome = Pass | Fail(error: string)
}
