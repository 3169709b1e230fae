/** Failure-carrying datatypes used for the error paths of the modelled programs
    (Python exceptions, sys.exit, C++ throws). */
module Wrappers {

  datatype Option<T> = None | Some(value: T)

  datatype Result<T, E> = Ok(value: T) | Err(error: E)

  /** Pass, or fail with an error value and nothing else. */
  datatype Outcome<E> = Pass | Fail(error: E)
}
