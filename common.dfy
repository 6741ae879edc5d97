/** Shared vocabulary of the model: optional values, results that carry the
    Java exception a call would throw, and the typed parameter values that
    monitored service parameters hold. */
module Common {

  datatype Option<+T> = None | Some(value: T)

  /** The Java exceptions the modelled code can throw. */
  datatype Error =
    | IllegalArgument(message: string)
    | IndexOutOfBounds
    | NullPointer
    | NumberFormat

  /** A call either returns a value or throws one of the exceptions above. */
  datatype Result<+T> = Success(value: T) | Failure(error: Error) {
    predicate IsFailure() { Failure? }

    function PropagateFailure<U>(): Result<U>
      requires Failure?
    {
      Failure(error)
    }

    function Extract(): T
      requires Success?
    {
      value
    }
  }

  /** A call that returns nothing either completes or throws. */
  datatype Outcome = Pass | Fail(error: Error)

  /** The run-time classes a parameter value (a Java Object) can have.
      Collection parameters are flattened into element counts before they
      reach the parameter maps, so they appear as IntV. */
  datatype Value =
    | DoubleV(d: real)
    | LongV(l: int)
    | IntV(i: int)
    | StringV(s: string)
    | BoolV(b: bool)
}
