/** The two result types shared by the whole model. */
module Prelude {
  datatype Option<+T> = None | Some(value: T)

  /** A Go `(value, error)` pair whose error text is not modelled. */
  datatype Result<+T> = Ok(value: T) | Err
}
