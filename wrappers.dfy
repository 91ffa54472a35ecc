/** Failure-compatible wrappers used for lookups and for the compiler's panics. */
module Wrappers {

  datatype Option<+T> = None | Some(value: T)

  /** `Err` stands for a Rust panic: compilation stops and produces nothing. */
  datatype Result<+T, +E> = Ok(value: T) | Err(error: E) {

    predicate IsFailure() {
      Err?
    }

    function PropagateFailure<U>(): Result<U, E>
      requires Err?
    {
      Err(error)
    }

    function Extract(): T
      requires Ok?
    {
      value
    }
  }
}
