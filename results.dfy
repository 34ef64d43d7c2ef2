/** Failure-carrying return values, standing in for the exceptions and the
    `None` values of the Python helpers. */
module Results {

  datatype Option<+T> = None | Some(value: T)

  datatype Result<+T, +E> = Ok(value: T) | Err(error: E)
}
