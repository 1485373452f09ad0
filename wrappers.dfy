/** The outcome of an operation that either succeeds with a value or fails with an error,
    standing for a Python call that returns normally or raises. */
module Wrappers {

  datatype Result<+T, +E> = Success(value: T) | Failure(error: E)
}
