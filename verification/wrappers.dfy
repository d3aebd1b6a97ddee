/** Option and Result, the typed stand-ins for JavaScript's `null` and for a
    thrown exception. */
module Wrappers {

  /** `None` stands for `null`, `undefined` or any other value that is not
      a string where a string is expected. */
  datatype Option<+T> = None | Some(value: T)

  /** `Err` stands for an exception that escapes the call. */
  datatype Result<+T, +E> = Ok(value: T) | Err(error: E)
}
