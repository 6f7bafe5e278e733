/** Result types shared by every module. */
module Wrappers {
  datatype Option<+T> = None | Some(value: T)

  datatype Result<+T, +E> = Ok(value: T) | Err(error: E)

  /** A 128-bit identifier; only equality matters to the model. */
  type Uuid = nat

  const NIL_UUID: Uuid := 0

  /** An instant, in nanoseconds. */
  type Time = int
}
