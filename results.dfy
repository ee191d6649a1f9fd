/** Optional values and results with an error value, used for Python's exceptions. */
module Results {

  datatype Option<+T> = None | Some(value: T) {
    predicate IsFailure() { None? }

    function PropagateFailure<U>(): Option<U>
      requires None?
    {
      None
    }

    function Extract(): T
      requires Some?
    {
      value
    }
  }

  /** `Err` stands for an exception the source raises. */
  datatype Result<+T, +E> = Ok(value: T) | Err(error: E)
}
