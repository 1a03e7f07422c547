/** Optional values and results, the model's stand-in for pandas' missing
    markers (NaN / NaT) and for the exceptions a lookup can raise. */
module Wrappers {

  /** A value that may be missing: `None` plays the part of NaN or NaT. */
  datatype Option<+T> = None | Some(value: T)

  /** A result that may carry an error instead of a value. */
  datatype Result<+R, +E> = Ok(value: R) | Err(error: E) {

    predicate IsFailure() {
      Err?
    }

    function PropagateFailure<U>(): Result<U, E>
      requires Err?
    {
      Err(error)
    }

    function Extract(): R
      requires Ok?
    {
      value
    }
  }
}
