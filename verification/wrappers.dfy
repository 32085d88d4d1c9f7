/** Failure-carrying values shared by the collectors. An Option models a kernel
    query that either produced its data or failed; a Result models a collector
    that either returns its records or throws an error with a message. */
module Wrappers {

  datatype Option<+T> = None | Some(value: T)

  datatype Result<+R, +E> = Success(value: R) | Failure(error: E)
}
