/** Option and Result, the two failure-carrying shapes the storage model uses:
    Option for Go's nil-able pointers, Result for a (value, error) pair. */
module Wrappers {

  datatype Option<+T> = None | Some(value: T)

  datatype Result<+T, +E> = Success(value: T) | Failure(error: E)
}
