/** Option and Result values, and the Python exceptions the modelled scripts can raise. */
module Wrappers {

  datatype Option<+T> = None | Some(value: T)

  /** The exceptions (and the process exit) that the modelled code can end in. */
  datatype PyError =
    | KeyError(key: char)      // a dictionary lookup with a missing character key
    | MissingKey(name: string) // a dictionary lookup with a missing string key
    | IndexError               // a list or string index out of range
    | ValueError               // tuple unpacking with too few values, or int() of a non-number
    | TypeError                // str.join over a list holding None, or arithmetic on None
    | ZeroDivisionError        // a division by zero
    | Exit                     // error_out: the process exits

  datatype Result<+T> = Ok(value: T) | Err(error: PyError)

  /** What a script printed, and the exception that ended it after those lines, if one did. */
  datatype Run = Run(printed: seq<string>, error: Option<PyError>)
}
