/** Option and Result datatypes: Java's null references and thrown exceptions, made explicit. */
module Wrappers {

  /** A value that may be absent: `None` stands for a Java `null`. */
  datatype Option<+T> = None | Some(value: T)

  /** The outcome of an operation that can fail instead of throwing. */
  datatype Result<+T, +E> = Ok(value: T) | Err(error: E)
}
