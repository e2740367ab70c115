/** Outcome types shared by the query engine model: Java's null becomes `None`,
    a thrown exception becomes `Failure`. */
module Wrappers {

  datatype Option<+T> = None | Some(value: T)

  /** The exceptions the modelled code throws. */
  datatype Exception =
    | NullPointerException(message: string)
    | AssertionError

  datatype Result<+T> = Success(value: T) | Failure(error: Exception)
}
