/** Option and Outcome, the two failure-carrying datatypes the model uses. */
module Wrappers {

  /** A value that may be missing: `None` stands for a raised `ValueError`. */
  datatype Option<+T> = None | Some(value: T)

  /** The result of an operation that returns nothing on success. */
  datatype Outcome<+E> = Pass | Fail(error: E)
}
