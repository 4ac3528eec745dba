/** Result types used by the model in place of Java's null returns and exceptions. */
module Wrappers {

  /** A value or nothing; stands for a Java reference that may be null. */
  datatype Option<+T> = None | Some(value: T)

  /** Success without a value, or a failure carrying the reason; stands for a void method that may throw. */
  datatype Outcome<+E> = Pass | Fail(error: E)
}
