/** Bytes, machine-word bounds and optional values, shared by the modules. */
module Bytes {
  datatype Option<+T> = None | Some(value: T)

  newtype byte = x: int | 0 <= x < 256

  /** One more than the largest 32-bit unsigned value (size_t, sequence numbers). */
  const UINT32: nat := 0x1_0000_0000
  /** One more than the largest int. */
  const INT_LIMIT: int := 0x8000_0000
}
