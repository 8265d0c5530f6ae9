/** The two failure-carrying datatypes the model uses for Java's exceptions and empty Optionals. */
module Wrappers {

  datatype Option<+T> = None | Some(value: T)

  datatype Result<+R, +E> = Success(value: R) | Failure(error: E)
}
