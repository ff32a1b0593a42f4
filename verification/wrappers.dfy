/** Failure-carrying datatypes shared by the modules of the model. */
module Wrappers {

  datatype Option<+T> = None | Some(value: T)

  /** The Python exception a call raises, for the error paths the model keeps. */
  datatype Raised =
    | TypeError       // e.g. subscripting `None`, or iterating it
    | AttributeError  // e.g. calling `.get` on `None` or on a list
    | ValueError      // e.g. `islice` with a negative stop

  /** Either the value a call returns or the exception it raises. */
  datatype Result<+T> = Ok(value: T) | Err(raised: Raised)
}
