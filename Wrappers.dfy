/** Option and Result, used for Java's null and for exceptions that a caller sees. */
module Wrappers {

  datatype Option<+T> = None | Some(value: T)

  datatype Result<+T, +E> = Ok(value: T) | Err(error: E)

  /** The Java exceptions that the modelled code can raise. */
  datatype JavaException =
    | ArrayIndexOutOfBounds
    | NegativeArraySize
    | NoSuchElement
      /** an `IOException` from reading a serialised map (`StreamCorruptedException`, `EOFException`) */
    | IOError
      /** a method called on `null` */
    | NullPointer
}
