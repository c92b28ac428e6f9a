/** Failure-carrying values used for the error paths of the modelled C++ code:
    a `false` return or a thrown exception becomes `None` or `Failure`. */
module Wrappers {

  datatype Option<+T> = None | Some(value: T)

  datatype Result<+R, +E> = Success(value: R) | Failure(error: E)
}
