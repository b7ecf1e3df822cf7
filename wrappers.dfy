/** Option and Result values: an absent value (Python's None) and an operation that can fail
    (a Python exception that ends the script). */
module Wrappers {

  datatype Option<+T> = None | Some(value: T)

  datatype Result<+T, +E> = Success(value: T) | Failure(error: E)
}
