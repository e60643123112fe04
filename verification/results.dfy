/** Failure-compatible wrappers shared by the decoder, the metadata builder and
    the tracker client: Rust's `Option` and `Result`. */
module Results {

  datatype Option<+T> = None | Some(value: T)

  datatype Result<+T, +E> = Ok(value: T) | Err(error: E) {

    predicate IsFailure() {
      Err?
    }

    function PropagateFailure<U>(): Result<U, E>
      requires Err?
    {
      Err(error)
    }

    function Extract(): T
      requires Ok?
    {
      value
    }
  }

  /** Rust's `Option::ok_or`. */
  function OkOr<T, E>(o: Option<T>, e: E): Result<T, E>
  {
    match o
    case Some(v) => Ok(v)
    case None => Err(e)
  }
}
