/** Option and Result datatypes shared by the log parser, the log pipeline and the status relay. */
module Wrappers {

  /** The outcome of a match: a value, or no match at all. */
  datatype Option<+T> = None | Some(value: T)

  /** The outcome of a call to the upstream server: a value, or the text of the exception raised. */
  datatype Result<+R, +E> = Success(value: R) | Failure(error: E)
}
