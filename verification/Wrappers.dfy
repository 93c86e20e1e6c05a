/** Results of code that may find nothing or panic. */
module Wrappers {
  datatype Option<+T> = None | Some(value: T)

  /** A value, or the panic the source raises instead. */
  datatype Result<+T> = Ok(value: T) | Panic {
    predicate IsFailure() { Panic? }

    function PropagateFailure<U>(): Result<U>
      requires Panic?
    {
      Panic
    }

    function Extract(): T
      requires Ok?
    {
      value
    }
  }
}
