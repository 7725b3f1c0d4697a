/** Error-carrying results, standing for Go's `(value, error)` return pairs. */
module Results {

  datatype Option<+T> = None | Some(value: T)

  /** `Ok(v)` is a return with a nil error; `Err(e)` is a return with a non-nil error. */
  datatype Result<+T, +E> = Ok(value: T) | Err(error: E)
}
