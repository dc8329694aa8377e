/** Failure-carrying values shared by every module: an optional value for
    C#'s null, a result for a call that may throw, and the exceptions the
    modelled code throws. */
module Wrappers {

  /** `None` stands for a null reference or for "nothing returned". */
  datatype Option<+T> = None | Some(value: T)

  /** The outcome of a C# call that either returns a value or throws. */
  datatype Result<+T, +E> = Success(value: T) | Failure(error: E)

  /** The exceptions the modelled code can throw. */
  datatype Error =
    | ArgumentException          // validating setters and Dictionary.Add on a duplicate key
    | InvalidOperationException  // the derived-key collection rejecting a duplicate key
}
