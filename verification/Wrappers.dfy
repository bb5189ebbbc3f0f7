/** Values that may be absent, and outcomes of code that may raise an exception. */
module Wrappers {
  datatype Option<T> = None | Some(value: T)

  datatype Outcome<T> = Ok(value: T) | Raised
}
