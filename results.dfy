/** The outcome every handler of the loan calculator returns: a value on
    success, or a human-readable text on failure. */
module Results {

  datatype Result<+T> = Ok(value: T) | Err(error: string)
}
