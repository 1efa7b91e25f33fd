/** Outcome types shared by the other modules. `Option` stands for a Python value
    that may be `None`. `Result` stands for a call that either returns or raises a
    configuration error; with `:-`, a raise ends the enclosing computation, as an
    uncaught exception does. */
module Results {

  datatype Option<+T> = None | Some(value: T)

  /** The outcome of a computation that either returns `value` or raises `error`. */
  datatype Result<+T, +E> = Ok(value: T) | Err(error: E) {

    predicate IsFailure() {
      Err?
    }

    function PropagateFailure<U>(): Result<U, E>
      requires Err?
    {
      Err(error)
    }

    function Extract(): T
      requires Ok?
    {
      value
    }
  }
}
