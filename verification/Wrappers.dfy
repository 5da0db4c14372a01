/** Result types shared by the model. */
module Wrappers {

  /** An unsigned 8-bit value. */
  type Byte = b: nat | b < 256 witness 0

  datatype Option<+T> = None | Some(value: T)

  /** Panic stands for a Go panic, explicit or from the run time. */
  datatype Result<+T> = Ok(value: T) | Panic
}
