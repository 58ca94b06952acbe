/** Failure-compatible result types used throughout the model.

    The Python code signals every rejected input by raising an exception; the
    model returns `Err` (or `Fail`) instead, carrying a short message that names
    the check that fired. */
module Wrappers {

  datatype Option<+T> = None | Some(value: T) {
    predicate IsFailure() {
      None?
    }

    function PropagateFailure<U>(): Option<U>
      requires None?
    {
      None
    }

    function Extract(): T
      requires Some?
    {
      value
    }
  }

  /** A value, or the message of the exception the source would raise. */
  datatype Result<+T> = Ok(value: T) | Err(msg: string) {
    predicate IsFailure() {
      Err?
    }

    function PropagateFailure<U>(): Result<U>
      requires Err?
    {
      Err(msg)
    }

    function Extract(): T
      requires Ok?
    {
      value
    }
  }

  /** The outcome of a check that either passes or raises. */
  datatype Outcome = Pass | Fail(msg: string) {
    predicate IsFailure() {
      Fail?
    }

    function PropagateFailure(): Outcome
      requires Fail?
    {
      this
    }

    /** The same verdict as a `Result` carrying `v` when it passes. */
    function ToResult<T>(v: T): Result<T> {
      if Pass? then Ok(v) else Err(msg)
    }
  }
}
