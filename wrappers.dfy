/** Failure-carrying return values. The C# core reports invalid input by throwing
    ArgumentException (and friends); the model returns one of these instead. */
module Wrappers {

  datatype Option<+T> = None | Some(value: T)

  datatype Result<+T, +E> = Ok(value: T) | Err(error: E) {
    predicate IsFailure() { Err? }

    function PropagateFailure<U>(): Result<U, E>
      requires Err?
    {
      Err(error)
    }

    function Extract(): T
      requires Ok?
    {
      value
    }
  }

  /** The result of a validating operation that produces no value (a setter, a guard). */
  datatype Outcome<+E> = Pass | Fail(error: E)
}
