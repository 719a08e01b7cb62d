/** Failure-carrying wrappers used throughout the model. */
module Results {

  /** A value that may be absent, e.g. a regular-expression match attempt. */
  datatype Option<+T> = None | Some(value: T)

  /** The outcome of a Python call that either returns a value or raises an
      exception; `Raised` carries the text `str(e)` of the exception. */
  datatype Result<+T> = Ok(value: T) | Raised(message: string)
}
