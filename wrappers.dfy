/** Option and Result values shared by the whole model.

    The library reports failures by throwing C++ exceptions (`std::invalid_argument`,
    `std::out_of_range`, `std::runtime_error`) or by its own `ERROR_IF` / `CHECK`
    macros, which raise a fatal error.  Each of those becomes an `Err` value
    carrying the kind of exception and its message. */
module Wrappers {

  datatype Option<+T> = None | Some(value: T) {
    function GetOr(default: T): T {
      match this
      case Some(v) => v
      case None => default
    }
  }

  /** The exception classes the modelled code throws. */
  datatype Error =
    | InvalidArgument(msg: string)   // std::invalid_argument
    | OutOfRange(msg: string)        // std::out_of_range
    | RuntimeError(msg: string)      // std::runtime_error
    | FatalError(msg: string)        // the library's ERROR_IF / CHECK failure

  datatype Result<+T> = Ok(value: T) | Err(error: Error) {
    predicate IsFailure() { Err? }

    function PropagateFailure<U>(): Result<U>
      requires Err?
    {
      Err(error)
    }

    function Extract(): T
      requires Ok?
    {
      value
    }
  }

  /** A failure-only outcome, for operations that return nothing but may throw. */
  datatype Outcome = Pass | Fail(error: Error) {
    predicate IsFailure() { Fail? }

    function PropagateFailure(): Outcome
      requires Fail?
    {
      this
    }
  }
}
