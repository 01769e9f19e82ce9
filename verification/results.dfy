/** Failure-compatible result types used to thread the validator's stages.
    Every `raise` of the modelled code becomes an `Err`/`Fail` value, and the
    `:-` operator gives the fail-fast propagation of a Python exception. */
module Results {

  /** The outcome of a stage that computes a value or raises. */
  datatype Result<+T, +E> = Ok(value: T) | Err(error: E) {

    predicate IsFailure() {
      Err?
    }

    function PropagateFailure<U>(): Result<U, E>
      requires Err?
    {
      Err(error)
    }

    function Extract(): T
      requires Ok?
    {
      value
    }
  }

  /** The outcome of a stage that only checks and may raise. */
  datatype Check<+E> = Pass | Fail(error: E) {

    predicate IsFailure() {
      Fail?
    }

    function PropagateFailure<U>(): Result<U, E>
      requires Fail?
    {
      Err(error)
    }
  }
}
