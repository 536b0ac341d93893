/** Option and Result values, and the exceptions of the suffix engine as data. */
module Wrappers {

  datatype Option<+T> = None | Some(value: T)

  /** The exceptions the engine can raise, as error values. */
  datatype Error =
    | MissingBeginMarker   // IndexError: strict mode and the ICANN begin marker is absent
    | EncodingError        // UnicodeError raised by the IDNA codec
    | SuffixNotFound       // ValueError("Domain not found in public suffix list.")

  datatype Result<+R> = Success(value: R) | Failure(error: Error) {

    predicate IsFailure() {
      Failure?
    }

    function PropagateFailure<U>(): Result<U>
      requires Failure?
    {
      Failure(error)
    }

    function Extract(): R
      requires Success?
    {
      value
    }
  }
}
