/**
 * Failure-carrying values shared by the route model: `Option` stands for a
 * PHP value that may be `null`, `Result` for a computation that may throw.
 */
module Results {

  datatype Option<+T> = None | Some(value: T)

  /** Either a value or the error a PHP method would have thrown. */
  datatype Result<+T, +E> = Ok(value: T) | Err(error: E) {

    predicate IsFailure() {
      Err?
    }

    function PropagateFailure<U>(): Result<U, E>
      requires Err?
    {
      Err(error)
    }

    function Extract(): T
      requires Ok?
    {
      value
    }
  }
}
