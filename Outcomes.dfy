/** Optional values and the Python exceptions the modelled code can raise. */
module Outcomes {

  datatype Option<+T> = None | Some(value: T)

  /** The exceptions that reach the caller of the modelled functions. */
  datatype PyError =
    | KeyError           // a dictionary lookup of a missing key
    | IndexError         // `[0]` of an empty list, or a boolean mask of the wrong shape
    | ValueError(message: string)
    | ZeroDivisionError
    | TypeError          // `pattern in name` with a pattern that is not a string
    | RasterOpenError    // the raster library cannot open the path

  /** Either the value a Python function returns or the exception it raises. */
  datatype Result<+T> = Ok(value: T) | Err(error: PyError)
}
