/** The unchecked exceptions that the list and picture operations throw, and a
    result type that carries either a value or the exception thrown. */
module Exceptions {

  /** The exception classes raised by the core (all are Java runtime exceptions). */
  datatype Exception =
    | NoSuchElement         // java.util.NoSuchElementException
    | IndexOutOfBounds      // java.lang.IndexOutOfBoundsException
    | UnsupportedOperation  // java.lang.UnsupportedOperationException
    | IllegalArgument       // java.lang.IllegalArgumentException

  /** Either the value a call returns or the exception it throws. */
  datatype Result<+T> = Ok(value: T) | Throws(exception: Exception) {
    predicate IsFailure() {
      Throws?
    }

    function PropagateFailure<U>(): Result<U>
      requires Throws?
    {
      Throws(exception)
    }

    function Extract(): T
      requires Ok?
    {
      value
    }
  }
}
