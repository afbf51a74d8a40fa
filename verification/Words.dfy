/** Unsigned 64-bit numbers, with their wrap-around. */
module Words {

  const TWO_64: nat := 0x1_0000_0000_0000_0000

  type uint64 = v: int | 0 <= v < 0x1_0000_0000_0000_0000

  const MAX_UINT64: uint64 := 0xFFFF_FFFF_FFFF_FFFF

  function Increment(v: uint64): uint64 {
    if v == MAX_UINT64 then 0 else v + 1
  }

  function Decrement(v: uint64): uint64 {
    if v == 0 then MAX_UINT64 else v - 1
  }
}
