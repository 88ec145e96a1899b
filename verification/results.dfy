/** The wrappers used by every transition of the model: an optional value
    (a nullable column, a missing request field) and a result that is
    either a new value or the error a view raises. */
module Results {

  datatype Option<+T> = None | Some(value: T)

  datatype Result<+T, +E> = Ok(value: T) | Err(error: E)
}
