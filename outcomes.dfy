/** Java's null references and thrown exceptions, as values. */
module Outcomes {

  /** A reference that may be null: `None` stands for Java's `null`. */
  datatype Option<T> = None | Some(value: T)

  /** The unchecked exceptions the modelled classes throw. */
  datatype Exception =
    | NullPointer      // java.lang.NullPointerException
    | IllegalArgument  // java.lang.IllegalArgumentException
    | NoSuchElement    // java.util.NoSuchElementException
    | IllegalState     // java.lang.IllegalStateException

  /** A call that either returns a value or completes abruptly with an exception. */
  datatype Result<T> = Ok(value: T) | Err(error: Exception)
}
