/** Failure-carrying return types: a Python function that either returns or raises
    is modelled as a function returning one of these. */
module Results {

  /** A value that may be missing; used where a Python operation may raise TypeError. */
  datatype Option<T> = None | Some(value: T)

  /** A check that either passes or names the reason it failed. */
  datatype Outcome<E> = Pass | Fail(error: E)

  /** A computation that either produces a value or names the exception it raised. */
  datatype Result<T, E> = Ok(value: T) | Err(error: E)
}
