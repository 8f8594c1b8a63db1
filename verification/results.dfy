/** Failure-compatible wrappers shared by every stage of the interpreter.
    The source signals failure with `Option`, `anyhow::Result` or `panic!`;
    the model turns each of those into one of these values. */
module Results {

  datatype Option<+T> = None | Some(value: T)

  datatype Result<+T, +E> = Ok(value: T) | Err(error: E) {

    predicate IsFailure() {
      Err?
    }

    function PropagateFailure<U>(): Result<U, E>
      requires Err?
    {
      Err(error)
    }

    function Extract(): T
      requires Ok?
    {
      value
    }
  }
}
