/** Small datatypes shared by every component. */
module Prelude {

  datatype Option<+T> = None | Some(value: T)

  datatype Result<+R, +E> = Ok(value: R) | Err(error: E)

  type byte = x: int | 0 <= x < 256
  type Bytes = seq<byte>

  /** A Server runtime generation, represented by its canonical text. */
  type Generation = string

  const U64_LIMIT: nat := 0x1_0000_0000_0000_0000
  const USIZE_MAX: nat := 0xFFFF_FFFF_FFFF_FFFF

  function Min(a: int, b: int): int {
    if a < b then a else b
  }

  /** The saturating addition of an unsigned 64-bit counter. */
  function SaturatingAdd(a: nat, b: nat): nat {
    Min(a + b, USIZE_MAX)
  }
}
