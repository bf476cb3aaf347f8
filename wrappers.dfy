/** Failure-carrying results: `Option` for an operation that may fail without a
    payload, `Result` for one whose failure names an error. */
module Wrappers {

  datatype Option<+T> = None | Some(value: T)

  datatype Result<+R, +E> = Success(value: R) | Failure(error: E)
}
