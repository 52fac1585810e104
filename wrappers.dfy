/** The optional-value and result datatypes shared by the other modules. */
module Wrappers {

  /** `None` stands for the C# `default(T)` / `null` a lookup or pop returns on failure. */
  datatype Option<+T> = None | Some(value: T)

  /** The outcome of an operation that either produces a value or raises an exception. */
  datatype Result<+R, +E> = Success(value: R) | Failure(error: E)
}
