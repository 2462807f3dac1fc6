/** Small datatypes and sequence facts shared by the component models. */
module Prelude {

  datatype Option<+T> = None | Some(value: T)

  datatype Result<+T, +E> = Ok(value: T) | Err(error: E)

  /** The number of values of a 64-bit word. */
  const WORD: nat := 0x1_0000_0000_0000_0000
}
