/** Absent-or-present values and success-or-error results, standing for the
    source's `null` returns and thrown errors. */
module Results {

  datatype Option<+T> = None | Some(value: T)

  /** `Err` carries the message of the error the source would throw. */
  datatype Result<+T, +E> = Ok(value: T) | Err(error: E)
}
