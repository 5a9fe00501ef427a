/** Values shared by every container: arguments that Java callers may pass as
    null, and the exceptions the containers throw, made explicit. */
module Outcomes {

  /** An element argument as a Java caller passes it: possibly null.
      Stored elements are never null, so containers hold plain values. */
  datatype Nullable<+T> = Null | NonNull(value: T)

  /** One constructor per exception kind the containers raise. */
  datatype Error =
    | IndexOutOfBounds   // IndexOutOfBoundsException: index outside [0, size)
    | NullArgument       // IllegalArgumentException: a null element argument
    | NoSuchElement      // NoSuchElementException: empty list or exhausted iterator
    | EmptyStack         // EmptyStackException: peek or pop on an empty stack
    | NullPointer        // NullPointerException: only reached by code as written

  /** The outcome of an operation that either returns a value or throws. */
  datatype Result<+T> = Ok(value: T) | Err(error: Error)
}
