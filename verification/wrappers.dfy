/** Option and Result, the failure-carrying values the model returns where the
    Python code returns None or raises. */
module Wrappers {

  datatype Option<+T> = None | Some(value: T)

  /** The Python exceptions that the modelled code can raise. */
  datatype PyError =
    | IndexError    // indexing an empty str or choosing from an empty list
    | TypeError     // AIResponse.__str__ meets a part of an unsupported type
    | KeyError(key: string)
    | AttributeError(name: string)  // a module attribute that does not exist

  datatype Result<+T> = Ok(value: T) | Err(error: PyError)
}
