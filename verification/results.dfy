/** Failure-compatible wrappers shared by every module of the model.

    The modelled code is Python; an operation that raises an exception is
    modelled as returning `Failure(kind)`, where `kind` names the exception
    class the interpreter would raise at that point. */
module Results {

  /** Python's `None`-or-value, as returned by `dict`-style lookups. */
  datatype Option<+T> = None | Some(value: T) {

    predicate IsFailure() {
      None?
    }

    function PropagateFailure<U>(): Option<U>
      requires None?
    {
      None
    }

    function Extract(): T
      requires Some?
    {
      value
    }
  }

  /** The exception classes the modelled code can raise. `SystemExit`
      stands for a call of `error(...)`, which reports and terminates. */
  datatype PyError = IndexError | ValueError | TypeError | NameError | SystemExit

  /** The outcome of a call that may raise. */
  datatype Result<+T> = Success(value: T) | Failure(error: PyError) {

    predicate IsFailure() {
      Failure?
    }

    function PropagateFailure<U>(): Result<U>
      requires Failure?
    {
      Failure(error)
    }

    function Extract(): T
      requires Success?
    {
      value
    }
  }
}
