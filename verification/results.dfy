/** Failure-carrying results for the analysis scripts.

    The scripts have no error handling of their own: a missing leaf on an
    event, a missing dictionary key, a division by zero or the square root
    of a negative number aborts the whole run. The model makes each of those aborts an explicit `Failure` value.
 */
module Results {

  /** The analysis variable a counter is kept for (`Visible`, `LeadingParticleNoN`, ...). */
  type Var = string

  /** Why a run aborts. */
  datatype Error =
    | MissingField(name: Var)   // an event has no leaf for the named variable
    | MissingKey                // a table lookup by sample, variable or cut fails
    | ZeroDivision              // an unguarded division by a zero count or efficiency
    | DomainError               // math.sqrt of a negative number

  datatype Option<+T> = None | Some(value: T)

  datatype Result<+T> = Success(value: T) | Failure(error: Error) {
    predicate IsFailure() {
      Failure?
    }

    function PropagateFailure<U>(): Result<U>
      requires Failure?
    {
      Failure(error)
    }

    function Extract(): T
      requires Success?
    {
      value
    }
  }
}
