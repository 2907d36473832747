/** Failure-carrying results shared by the modules of this model. */
module Wrappers {

  datatype Option<+T> = None | Some(value: T)

  /** A Python KeyError or a rejected form is a Failure; everything else a Success. */
  datatype Result<+T, +E> = Success(value: T) | Failure(error: E)
}
