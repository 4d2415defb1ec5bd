/** The datatypes for missing values and failures that every component shares. */
module Wrappers {
  datatype Option<+T> = None | Some(value: T)

  /** The outcome of an operation that bails out; the message text is not modelled. */
  datatype Result<+T> = Ok(value: T) | Err
}
