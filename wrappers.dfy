/** Java's nullable references and thrown exceptions, as values. */
module Wrappers {

  /** A reference that may be null. */
  datatype Nullable<+T> = Null | Present(value: T)

  /** The result of an operation that returns a value or throws. */
  datatype Result<+T, +E> = Ok(value: T) | Err(error: E)
}
