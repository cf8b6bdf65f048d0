/** A value that may be missing, and a computation that may fail. */
module Wrappers {

  datatype Option<T> = None | Some(value: T)

  datatype Outcome<T> = Ok(value: T) | Failed
}
