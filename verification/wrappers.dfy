/** Failure-compatible wrappers and the exceptions the Java code can raise. */
module Wrappers {

  /** A Java reference that may be null. */
  datatype Option<+T> = None | Some(value: T)

  /**
   * The Java exceptions the modelled code raises.  `Hangs` stands for a call
   * that never returns (an infinite loop), so that every operation is total.
   */
  datatype Error =
    | NullPointer
    | IllegalArgument
    | Pico(reason: PicoReason)
    | NegativeArraySize
    | Arithmetic
    | IndexOutOfBounds
    | IO
    | Hangs

  /** The messages of `PicoException`. */
  datatype PicoReason =
    | HeaderTooShort
    | BadMagic
    | UnsupportedVersion
    | MissingMagic
    | IncompleteKey

  /** The outcome of a Java call that either returns a value or throws. */
  datatype Result<+T> = Success(value: T) | Failure(error: Error) {

    predicate IsFailure() {
      Failure?
    }

    function PropagateFailure<U>(): Result<U>
      requires Failure?
    {
      Failure(error)
    }

    function Extract(): T
      requires Success?
    {
      value
    }
  }
}
