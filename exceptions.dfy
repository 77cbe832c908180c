/** The Java exceptions the core throws, and the result types that carry them. */
module Exceptions {

  /** The exception classes thrown by Fraction and Drug.
      (Java's NumberFormatException is a subclass of IllegalArgumentException;
      they are kept apart here because the source throws each deliberately.) */
  datatype Exception =
    | IllegalArgumentException
    | IllegalStateException
    | NumberFormatException
    | NullPointerException
    | ArithmeticException
    | ArrayIndexOutOfBoundsException

  /** A value, or the exception a Java method throws instead of returning it. */
  datatype Result<+T> = Ok(value: T) | Err(error: Exception)

  /** The outcome of a Java method returning `void`. */
  datatype Status = Done | Thrown(error: Exception)

  /** A Java reference to an immutable value that may be `null`. */
  datatype Option<+T> = None | Some(value: T)
}
