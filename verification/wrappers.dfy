/** Rust's `Option` and `Result`. A work item that panics is modelled as
    returning `Err` with a `Panic` value; `Result` supports Dafny's `:-`
    operator, which stands in for Rust's `?`. */
module Wrappers {

  datatype Option<+T> = None | Some(value: T)

  datatype Result<+T, +E> = Ok(value: T) | Err(error: E) {

    predicate IsFailure() {
      Err?
    }

    function PropagateFailure<U>(): Result<U, E>
      requires Err?
    {
      Err(error)
    }

    function Extract(): T
      requires Ok?
    {
      value
    }
  }
}
