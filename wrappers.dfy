/** Option and Result types used for the error paths of the modelled Python code
    (exceptions become `Failure` values, missing dictionary keys become `None`). */
module Wrappers {

  datatype Option<+T> = None | Some(value: T)

  datatype Result<+R, +E> = Success(value: R) | Failure(error: E) {
    predicate IsFailure() { Failure? }
  }
}
