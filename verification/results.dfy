/** Failure-carrying wrappers used by the model: `Option` for absent values
    (a substring that is not found) and `Result` for operations that can fail
    with an error (argument resolution). */
module Results {

  datatype Option<+T> = None | Some(value: T)

  datatype Result<+R, +E> = Success(value: R) | Failure(error: E)
}
