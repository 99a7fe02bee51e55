/** `Option`, the Python exceptions the scraper's core can raise, and a
    failure-compatible result type carrying them. */
module Wrappers {

  datatype Option<+T> = None | Some(value: T)

  /** `IndexError` from a list subscript out of range, `KeyError` from a missing
      dict key, `AssertionError` from a failed `assert`. */
  datatype Error = IndexError(what: string) | KeyError(key: string) | AssertionError(message: string)

  datatype Result<+T> = Ok(value: T) | Err(error: Error) {

    predicate IsFailure() {
      Err?
    }

    function PropagateFailure<U>(): Result<U>
      requires Err?
    {
      Err(error)
    }

    function Extract(): T
      requires Ok?
    {
      value
    }
  }
}
