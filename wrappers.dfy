/** Small value types shared by the whole model. */
module Wrappers {

  /** An optional value: the model's stand-in for a pointer that may be NULL. */
  datatype Option<+T> = None | Some(value: T)

  /** Unsigned machine integers of the widths the driver uses. */
  const U32Limit: nat := 0x1_0000_0000
  const U64Limit: nat := 0x1_0000_0000_0000_0000

  type u8 = x: nat | x < 256
  type u32 = x: nat | x < U32Limit
  type u64 = x: nat | x < U64Limit

  /** Kernel error numbers returned (negated) by the driver. */
  const EIO: int := 5
  const ENOMEM: int := 12
  const EINVAL: int := 22
}
