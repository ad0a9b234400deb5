/** Option and Result, the two failure-compatible wrappers the model uses in
    place of Rust's `Option` and `Result` (with `:-` standing for `?`). */
module Wrappers {

  datatype Option<+T> = None | Some(value: T)

  datatype Result<+T, +E> = Ok(value: T) | Err(error: E) {

    predicate IsFailure() {
      Err?
    }

    function PropagateFailure<U>(): Result<U, E>
      requires Err?
    {
      Err(error)
    }

    function Extract(): T
      requires Ok?
    {
      value
    }

    /** Rust's `map_err`: converts the error, keeps a success value. */
    function MapErr<NewE>(convert: E -> NewE): Result<T, NewE>
    {
      match this
      case Ok(v) => Ok(v)
      case Err(e) => Err(convert(e))
    }
  }
}
