/** Option and Result types shared by the recipe model. */
module Wrappers {

  /** An optional value: JavaScript's `null` / "no match" on one side, a value on the other. */
  datatype Option<+T> = None | Some(value: T)

  /** The outcome of an operation that may be refused with an error. */
  datatype Result<+T, +E> = Success(value: T) | Failure(error: E)
}
