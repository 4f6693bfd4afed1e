/** Option, Result and the Python errors the modelled code raises. */
module Results {

  datatype Option<+T> = None | Some(value: T)

  /** The Python exceptions the modelled code can raise. */
  datatype Error =
    | IndexError             // a list index out of range (str.split result too short)
    | KeyError(key: string)  // a column label that is not in the frame
    | ParseError(text: string)  // a date label pandas cannot parse

  datatype Result<+T> = Ok(value: T) | Err(error: Error)
}
