/** Machine integers and the small generic datatypes shared by every module. */
module Primitives {

  const U64_MAX := 0xFFFF_FFFF_FFFF_FFFF

  /** An unsigned 64-bit commit index, sequence number or timestamp. */
  type U64 = x: int | 0 <= x <= 0xFFFF_FFFF_FFFF_FFFF

  datatype Option<+T> = None | Some(value: T)

  function SaturatingIncrement(x: U64): U64
  {
    if x == U64_MAX then U64_MAX else x + 1
  }
}
