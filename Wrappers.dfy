/** Option and Result: Java's null / Optional and thrown exceptions, made explicit. */
module Wrappers {

  /** A possibly absent value: `null` or an empty `Optional` is `None`. */
  datatype Option<+T> = None | Some(value: T)

  /** The outcome of a call that either returns a value or throws `error`. */
  datatype Result<+T, +E> = Ok(value: T) | Err(error: E)
}
