/** What every module may need: optional values, results, and the smaller and larger of two. */
module Common {

  datatype Option<+T> = None | Some(value: T)

  datatype Result<+T, +E> = Success(value: T) | Failure(error: E)

  /** A contract call's outcome; a trap is a panic of the host, which reverts the call. */
  datatype Outcome<+T, +E> = Ok(value: T) | Err(error: E) | Trap {
    predicate IsFailure() { !Ok? }

    function PropagateFailure<U>(): Outcome<U, E> {
      if Err? then Err(error) else Trap
    }

    function Extract(): T
      requires Ok?
    {
      value
    }
  }

  function Min(a: int, b: int): int { if a <= b then a else b }

  function Max(a: int, b: int): int { if a >= b then a else b }
}
