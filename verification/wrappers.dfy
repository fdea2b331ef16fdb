/** Failure-carrying datatypes shared by the whole model.

    Java signals absence with `null` and failure with exceptions; the model uses
    `Option` for the first and `Result` with a `Failure` value for the second. */
module Wrappers {

  /** A value that may be absent: a nullable Java reference. */
  datatype Option<+T> = None | Some(value: T) {

    /** The value, or `default` when absent. */
    function GetOr(default: T): T {
      match this
      case Some(v) => v
      case None => default
    }
  }

  /** Either a computed value or the failure the Java code would throw. */
  datatype Result<+T, +E> = Ok(value: T) | Err(error: E)

  /** The exceptions the core throws, each with the message it carries. */
  datatype Failure =
    | NullPointer(message: string)       // Objects.requireNonNull
    | IllegalArgument(message: string)   // argument guards, Enum.valueOf, parsePaymentMethod
    | Validation(message: string)        // ValidationException from throwIfInvalid
    | DateTime(message: string)          // DateTimeException from LocalDate.of
    | DateTimeParse(text: string)        // DateTimeParseException from LocalDate.parse
}
