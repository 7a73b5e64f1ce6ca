/** Optional values and fallible results shared by every stage of the pipeline. */
module Wrappers {

  /** A value that may be absent. `None` stands for every missing marker the
      pipeline meets: NaN, pandas' NA, Python's None and the infinities that
      are replaced by NaN before any statistics are taken. */
  datatype Option<+T> = None | Some(value: T)

  /** The outcome of a step that either produces a value or stops with the
      exception the pipeline would raise. */
  datatype Result<+T, +E> = Ok(value: T) | Err(error: E) {

    predicate IsFailure() {
      Err?
    }

    function PropagateFailure<U>(): Result<U, E>
      requires Err?
    {
      Err(error)
    }

    function Extract(): T
      requires Ok?
    {
      value
    }
  }
}
