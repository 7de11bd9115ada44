/** Option and outcome types shared by the other modules. */
module Wrappers {

  /** A value that may be missing, like Rust's `Option`. */
  datatype Option<+T> = None | Some(value: T)

  /** The outcome of a step that returns nothing on success, like Rust's `Result<(), E>`. */
  datatype Outcome<+E> = Pass | Fail(error: E)
}
