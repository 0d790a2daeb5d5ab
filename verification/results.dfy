/** Failure-carrying values shared by the model: an optional value (the
    program's NaN sentinel for "no pathogen") and the outcome of an operation
    that can raise (the program's Python exceptions). */
module Results {

  datatype Option<+T> = None | Some(value: T)

  datatype Result<+T, +E> = Success(value: T) | Failure(error: E)
}
