/** Failure-carrying values shared by the other modules: `Option` for a value
    that may be absent (a nullable column, a failed parse) and `Result` for an
    operation that either produces a value or reports why it refused. */
module Wrappers {

  datatype Option<+T> = None | Some(value: T)

  datatype Result<+T, +E> = Ok(value: T) | Err(error: E)
}
