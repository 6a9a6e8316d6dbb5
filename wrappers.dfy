/** Option and Result: the error paths of the modelled code (a C++ null pointer,
    a thrown exception, a diagnostic) become values of these types. */
module Wrappers {

  datatype Option<+T> = None | Some(value: T)

  datatype Result<+R, +E> = Success(value: R) | Failure(error: E) {
    predicate IsFailure() {
      Failure?
    }
  }
}
