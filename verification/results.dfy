/** Failure-carrying values shared by the modules of this model. */
module Results {

  /** A value that may be absent (pandas' NaN result of an empty quantile, a missing column). */
  datatype Option<+T> = None | Some(value: T)

  /** The outcome of an operation that can raise (`main`, `validate_categorical_levels`): `Ok` or the exception raised. */
  datatype Result<+T, +E> = Ok(value: T) | Err(error: E)
}
