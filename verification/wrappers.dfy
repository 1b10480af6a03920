/** Result types shared by the movie modules. `Option` stands for Java's
    `Optional` and for a nullable reference; `Result` stands for a value or a
    thrown `IllegalArgumentException`; `Outcome` is a check that passes or
    fails with an error and carries no value. */
module Wrappers {

  datatype Option<+T> = None | Some(value: T)

  datatype Result<+R, +E> = Success(value: R) | Failure(error: E)

  datatype Outcome<+E> = Pass | Fail(error: E)
}
