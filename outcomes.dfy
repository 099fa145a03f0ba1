/** The failure signals of the sequence container and the wrappers that carry them. */
module Outcomes {

  /** The three exception kinds the container raises. */
  datatype Error =
    | IndexOutOfBounds  // a position or range outside the valid part of the sequence
    | EmptySequence     // removing the head or tail of an empty sequence
    | IllegalArgument   // mismatched shuffle arrays, or a shuffle that leaves a slot unset

  /** A value or "absent" (the Java null returned by first, last and predecessor). */
  datatype Option<T> = None | Some(value: T)

  /** A value, or the exception an operation throws instead of returning one. */
  datatype Result<T> = Success(value: T) | Failure(error: Error)

  /** Completion of an operation that returns nothing, or the exception it throws. */
  datatype Outcome = Pass | Fail(error: Error)
}
