/** Option and Result values standing for Java's null returns and thrown exceptions. */
module Wrappers {
  datatype Option<T> = None | Some(value: T)

  /** The Java exceptions and errors the modelled code throws; a recursion
    * that never reaches its base case ends in StackOverflowError. */
  datatype Exception =
    | IllegalArgumentException
    | IllegalStateException
    | RuntimeException
    | NullPointerException
    | BufferUnderflowException
    | ArrayIndexOutOfBoundsException
    | IndexOutOfBoundsException
    | StackOverflowError

  datatype Result<T> = Ok(value: T) | Err(error: Exception)
}
