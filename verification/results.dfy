/** Option and Result, the two failure-carrying types the reader and writer return.
    Errors are the plain message strings the implementation returns. */
module Results {

  datatype Option<+T> = None | Some(value: T)

  datatype Result<+T> = Ok(value: T) | Err(error: string)
}
