/** Failure-carrying datatypes shared by the model: a value that may be absent,
    a computation that either returns or raises, and a command that either
    completes or raises. */
module Wrappers {

  datatype Option<+T> = None | Some(value: T)

  /** What a Python call that returns a value or raises an exception ends with. */
  datatype Result<+R, +E> = Success(value: R) | Failure(error: E)

  /** What a Python call that returns nothing or raises an exception ends with. */
  datatype Outcome<+E> = Pass | Fail(error: E)
}
