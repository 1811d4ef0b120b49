/** The two failure-carrying wrappers the rest of the model uses: an optional
    value (a JSON field that may be absent or null) and a computation that may
    fail with an error (a raised Python exception). */
module Wrappers {

  datatype Option<+T> = None | Some(value: T)

  datatype Result<+T, +E> = Ok(value: T) | Err(error: E)
}
