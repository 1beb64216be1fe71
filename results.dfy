/** Optional values and results with an error, used for the library calls the
    scanner makes (number parsing, hex decoding, item parsing). */
module Results {

  datatype Option<+T> = None | Some(value: T)

  datatype Result<+T, +E> = Ok(value: T) | Err(error: E)
}
