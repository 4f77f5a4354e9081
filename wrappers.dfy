/** Optional values and fallible results, the two shapes Python's `None` and
    raised exceptions take in this model. */
module Wrappers {

  datatype Option<+T> = None | Some(value: T)

  /** `Err` carries the text of the exception the Python code raises. */
  datatype Result<+T> = Ok(value: T) | Err(message: string)
}
