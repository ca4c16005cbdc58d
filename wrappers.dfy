/** Absence and failure values shared by the modules of this project. */
module Wrappers {

  /** `None` stands for a Java `null` result. */
  datatype Option<+T> = None | Some(value: T)

  /** `Failure` stands for an exception the Java code lets escape. */
  datatype Result<+T, +E> = Success(value: T) | Failure(error: E)
}
