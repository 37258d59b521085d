/** Helper types shared by the exam modules. */
module Wrappers {

  /** A value that JavaScript may leave `null` or `undefined`. */
  datatype Option<+T> = None | Some(value: T)

  /** The outcome of a check that either passes or fails with an error value. */
  datatype Outcome<+E> = Pass | Fail(error: E)
}
