/** Option, Result and Outcome: the shapes used for the source's `undefined`,
    thrown errors and validators that either return or throw. */
module Wrappers {

  datatype Option<+T> = None | Some(value: T)

  datatype Result<+R, +E> = Ok(value: R) | Err(error: E)

  /** A check that either passes or fails with an error (a function that returns or throws). */
  datatype Outcome<+E> = Pass | Fail(error: E)
}
