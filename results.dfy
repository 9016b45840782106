/** The two outcome shapes the export core returns: an optional value, and a
    value or the one-line error message the script prints for a failure. */
module Results {

  datatype Option<+T> = None | Some(value: T)

  /** `Ok(v)` is the script's `(True, v)`; `Err(m)` its `(False, m)`. */
  datatype Result<+T> = Ok(value: T) | Err(message: string)
}
