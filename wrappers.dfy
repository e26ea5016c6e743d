/** Option and Result, the failure-carrying wrappers the model uses in place of Go's nil
    pointers and error returns. */
module Wrappers {

  datatype Option<+T> = None | Some(value: T)

  datatype Result<+T, +E> = Ok(value: T) | Err(error: E)
}
