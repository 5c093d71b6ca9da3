/** Failure-carrying values shared by the router model: `Option` for lookups
    that may find nothing, `Result` for operations that abort with an error. */
module Results {

  datatype Option<+T> = None | Some(value: T)

  datatype Result<+T, +E> = Success(value: T) | Failure(error: E)
}
