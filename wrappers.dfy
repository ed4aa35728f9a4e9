/** Option and Result values used by every model in this project. */
module Wrappers {

  datatype Option<T> = None | Some(value: T)
  {
    predicate IsSome() { this.Some? }

    function GetOr(default: T): T
    {
      match this
      case None => default
      case Some(v) => v
    }
  }

  /** `Ok(value)` is a normal return; `Fail(error)` is the exception the source throws. */
  datatype Result<T, E> = Ok(value: T) | Fail(error: E)
  {
    predicate IsOk() { this.Ok? }

    /** The members that let `:-` propagate a `Fail` as the exception it stands for. */
    predicate IsFailure() { this.Fail? }

    function PropagateFailure<U>(): Result<U, E>
      requires Fail?
    {
      Fail(error)
    }

    function Extract(): T
      requires Ok?
    {
      value
    }
  }
}
