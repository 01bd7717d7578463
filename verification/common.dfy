/** Option and Result wrappers shared by the whole model, and the Ruby
    exceptions the modelled code raises (an exception becomes an `Err`). */
module Common {

  datatype Option<+T> = None | Some(value: T) {

    /** The wrapped value, or `default` when there is none (Ruby's `x || default`
        when `x` can only be nil or a value). */
    function GetOr(default: T): T {
      match this
      case Some(v) => v
      case None => default
    }
  }

  /** The exception classes the modelled code raises, with their messages. */
  datatype Error =
    | ArgumentError(message: string)
    | NoMethodError(message: string)
    | TypeError(message: string)

  /** A computation that either returns a value or raises. */
  datatype Result<+T> = Ok(value: T) | Err(error: Error) {

    predicate IsFailure() {
      Err?
    }

    function PropagateFailure<U>(): Result<U>
      requires Err?
    {
      Err(error)
    }

    function Extract(): T
      requires Ok?
    {
      value
    }
  }
}
