/** Optional arguments and success/failure results shared by the timeline modules. */
module Results {

  /** An argument the caller may leave out (`undefined` in the JavaScript API). */
  datatype Option<+T> = None | Some(value: T)

  /** The outcome of an operation that either succeeds or throws. */
  datatype Result<+T, +E> = Ok(value: T) | Err(error: E)
}
