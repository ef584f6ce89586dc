/** Option and Result, and the Python exceptions the tracker's code can raise. */
module Wrappers {

  datatype Option<+T> = None | Some(value: T)

  datatype Result<+R, +E> = Success(value: R) | Failure(error: E)

  /** The built-in exception classes that reach a caller of the modelled code. */
  datatype PyError =
    | ValueError      // float()/int() on a malformed literal, json.loads, the URL validator
    | IndexError      // indexing an empty list or an empty str
    | KeyError        // subscripting a dict with a key it does not have
    | TypeError       // subscripting a number, a bool or None
    | AttributeError  // calling .get on something that is not a dict
}
