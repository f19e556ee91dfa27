/** Optional cells and error results shared by the whole model. */
module Wrappers {

  /** A table cell that may be missing (pandas NaN / JSON null). */
  datatype Option<+T> = None | Some(value: T)

  /** The Python exceptions the filter code can raise on the inputs it is given. */
  datatype Error =
    | TypeError      // `i in x` evaluated with a NaN cell `x`
    | ValueError     // boolean indexing with a mask that holds NaN
    | KeyError(key: seq<char>)  // a missing dictionary key or DataFrame column

  /** Either a value or the exception that stopped the script. */
  datatype Result<+T> = Ok(value: T) | Err(error: Error)
}
