/** Option and Result values standing for C#'s null and thrown exceptions. */
module Wrappers {

  /** `None` is C#'s `null` (or `default`) for a reference or nullable value. */
  datatype Option<+T> = None | Some(value: T)

  /** `Failure` is an exception thrown by the modelled code. */
  datatype Result<+R, +E> = Success(value: R) | Failure(error: E)

  /** System.ArgumentException, with its message. */
  datatype ArgumentException = ArgumentException(message: string)
}
