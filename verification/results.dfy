/** Failure-carrying values shared by the whole model: Rust's `Option<T>`
    and `Result<T, E>`. */
module Results {

  /** `Option<T>`: a value that may be absent. */
  datatype Option<T> = None | Some(value: T)

  /** `Result<T, E>`: either a success value or an error value. It supports
      Dafny's `:-`, which plays the part of Rust's `?`. */
  datatype Result<T, E> = Ok(value: T) | Err(error: E) {

    predicate IsFailure() {
      Err?
    }

    function PropagateFailure<U>(): Result<U, E>
      requires Err?
    {
      Err(error)
    }

    function Extract(): T
      requires Ok?
    {
      value
    }
  }
}
