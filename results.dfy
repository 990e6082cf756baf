// Failure-carrying return values shared by the controllers: the HTTP
// handlers answer either with a value or with an error response.
module Results {

  datatype Option<+T> = None | Some(value: T)

  datatype Result<+T, +E> = Ok(value: T) | Err(error: E)
}
