/** The library's error conditions and the failure-compatible wrappers the
    model uses in place of exceptions. */
module Outcomes {

  /** Each `throw new Error(...)` of the library, with the offending value. */
  datatype Error =
    | IllegalEta(eta: int)
    | UnknownEta(eta: int)
    | InvalidEta(eta: int)
    | InvalidGamma1(gamma1: int)
    | InvalidGamma2(gamma2: int)
    | InvalidLevel(level: int)
    | InvalidSignatureSize(expected: int, found: int)

  datatype Result<+T> = Success(value: T) | Failure(error: Error) {
    predicate IsFailure() {
      Failure?
    }

    function PropagateFailure<U>(): Result<U>
      requires Failure?
    {
      Failure(error)
    }

    function Extract(): T
      requires Success?
    {
      value
    }
  }

  datatype Option<+T> = None | Some(value: T) {
    predicate IsFailure() {
      None?
    }

    function PropagateFailure<U>(): Option<U>
      requires None?
    {
      None
    }

    function Extract(): T
      requires Some?
    {
      value
    }
  }
}
