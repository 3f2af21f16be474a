/** Optional values, results, and the Python exceptions the modelled code can raise. */
module Wrappers {

  datatype Option<+T> = None | Some(value: T)

  /** The exceptions of the modelled code that escape to the caller. */
  datatype PyError =
    | IndexError         // `word_text[0]` on an empty string
    | ZeroDivisionError  // averaging an empty list of scores
    | TypeError          // iterating over a stored `None`
    | UnboundLocalError  // reading `avg` before any assignment

  datatype Result<+T> = Ok(value: T) | Err(error: PyError)
}
