/** Failure-carrying datatypes shared by the rest of the model. */
module Wrappers {

  /** An optional value: `None` stands for Go's "not present" / "no match". */
  datatype Option<+T> = None | Some(value: T)

  /** A value or an error, standing for Go's `(value, error)` return pairs. */
  datatype Result<+T, +E> = Success(value: T) | Failure(error: E)
}
