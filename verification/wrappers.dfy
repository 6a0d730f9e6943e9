/** The two failure-carrying wrappers the model uses: an optional value
    (a JavaScript value that may be `undefined`) and a result that is either
    a value or an error. */
module Wrappers {

  datatype Option<+T> = None | Some(value: T)

  datatype Result<+T, +E> = Ok(value: T) | Err(error: E)
}
