/** Outcomes of the image reader. */
module Results {
  /** A value; a Python exception; or more steps than the given bound allows. */
  datatype Result<+T> = Ok(value: T) | Raised | OutOfFuel {
    predicate IsFailure() { !Ok? }

    function PropagateFailure<U>(): Result<U>
      requires IsFailure()
    {
      if Raised? then Raised else OutOfFuel
    }

    function Extract(): T
      requires Ok?
    {
      value
    }
  }
}
