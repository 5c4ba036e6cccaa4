/** Failure-carrying wrappers shared by the whole model: `Option` stands for a
    Java/JavaScript value that may be null, `Result` for an operation that may
    throw (the error value names the exception's cause). */
module Results {

  datatype Option<+T> = None | Some(value: T)

  datatype Result<+T, +E> = Ok(value: T) | Err(error: E)
}
