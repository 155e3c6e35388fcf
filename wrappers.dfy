/** Failure-compatible wrappers used for the exceptions that the summarizer
    raises and for request parameters that may be absent. */
module Wrappers {

  datatype Option<+T> = None | Some(value: T)

  datatype Result<+R, +E> = Success(value: R) | Failure(error: E)
}
