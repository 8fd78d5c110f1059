/** Result and Option values shared by the GLB parser and the buffer importer. */
module Results {

  /** The optional value of Rust's `Option<T>`. */
  datatype Option<+T> = None | Some(value: T)

  /** The value-or-error of Rust's `Result<T, E>`; usable with `:-` like Rust's `?`. */
  datatype Result<+T, +E> = Ok(value: T) | Err(error: E) {

    predicate IsFailure() {
      Err?
    }

    function PropagateFailure<U>(): Result<U, E>
      requires Err?
    {
      Err(error)
    }

    function Extract(): T
      requires Ok?
    {
      value
    }
  }
}
