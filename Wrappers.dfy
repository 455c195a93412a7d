/** Nullable values and failure-carrying results, the shapes the Java code
    expresses with null, Optional and thrown exceptions. */
module Wrappers {

  /** A Java reference that may be null: None is null. */
  datatype Option<+T> = None | Some(value: T)

  /** The value of a call that returns something or throws. */
  datatype Result<+R, +E> = Success(value: R) | Failure(error: E)

  /** The outcome of a void call that returns normally or throws. */
  datatype Outcome<+E> = Pass | Fail(error: E)
}
