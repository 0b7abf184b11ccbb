/** Option, Result and Outcome: the failure-carrying values the model uses
    for Go's nil pointers, (value, error) pairs and error returns. */
module Wrappers {

  datatype Option<+T> = None | Some(value: T)

  datatype Result<+R, +E> = Success(value: R) | Failure(error: E)

  datatype Outcome<+E> = Pass | Fail(error: E)
}
