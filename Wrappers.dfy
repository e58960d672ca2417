/** Optional values and the Java exceptions that the modelled operations throw. */
module Wrappers {

  /** An optional value; `None` stands for a Java null reference. */
  datatype Option<+T> = None | Some(value: T)

  /** The exceptions the modelled code throws, by Java class name. */
  datatype Exception =
    | IndexOutOfBoundsException
    | ArrayIndexOutOfBoundsException
    | NoSuchElementException
    | NullPointerException
    | UnsupportedOperationException
    | IllegalArgumentException

  /** The outcome of a Java call: a returned value or a thrown exception. */
  datatype Result<+R> = Ok(value: R) | Throws(error: Exception)
}
