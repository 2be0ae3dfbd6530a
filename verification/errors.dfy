/**
 * How the library's Java methods end: they return normally, with or without a
 * value, or they throw one of the two unchecked exceptions the code uses.
 * A Java `null` reference argument is modelled by `Option` (or a nullable
 * class type); a `null` String argument is folded into the empty string,
 * because every guard in the library treats the two alike.
 */
module Errors {

  /** The exception classes thrown by the library code. */
  datatype Exception = IllegalArgument | IllegalState

  /** The end of a `void` method: normal return, or an exception. */
  datatype Outcome = Done | Thrown(ex: Exception)

  /** The end of a method with a result: a returned value, or an exception. */
  datatype Result<+T> = Ok(value: T) | Err(ex: Exception)

  /** A possibly-null reference to a value. */
  datatype Option<+T> = None | Some(value: T)
}
