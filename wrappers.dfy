/** Failure-carrying values: `None` and `Failure` stand for the NaN results and the
    exceptions of the modelled program. */
module Wrappers {

  datatype Option<+T> = None | Some(value: T)

  datatype Result<+R, +E> = Success(value: R) | Failure(error: E)
}
