/** Option and result types shared by the modules of this project. */
module Wrappers {

  /** A value that may be absent: JavaScript's `null`/`undefined`. */
  datatype Option<T> = None | Some(value: T)

  /** The outcome of an operation that yields a value or throws an error. */
  datatype Result<T, E> = Ok(value: T) | Err(error: E)

  /** The outcome of an operation that yields nothing or throws an error. */
  datatype Outcome<E> = Pass | Fail(error: E)
}
