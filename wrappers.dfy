/** Option and Result, standing for Reactor's Mono: a Mono that completes empty is
    `None`, one that emits a value is `Some`, and one that signals an error is `Failure`. */
module Wrappers {

  datatype Option<+T> = None | Some(value: T)

  datatype Result<+R, +E> = Success(value: R) | Failure(error: E)
}
