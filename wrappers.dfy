/** Failure-carrying datatypes shared by the pipeline's modules. */
module Wrappers {

  datatype Option<T> = None | Some(value: T)

  datatype Result<T, E> = Ok(value: T) | Err(error: E)

  /** The Python exceptions the modelled core can raise. */
  datatype PyError =
    | ZeroDivisionError  // gc_content on a fragment that is empty once trailing newlines are removed
    | ValueError         // min() over an empty Length column
}
