/** The wrap-around of C's fixed-width integers, and C's division. */
module MachineIntegers {
  const TWO31 := 0x8000_0000
  const TWO32 := 0x1_0000_0000
  const TWO64 := 0x1_0000_0000_0000_0000

  function U32(x: int): (r: int)
    ensures 0 <= r < TWO32
    ensures 0 <= x < TWO32 ==> r == x
  {
    x % TWO32
  }

  function U64(x: int): (r: int)
    ensures 0 <= r < TWO64
    ensures 0 <= x < TWO64 ==> r == x
  {
    x % TWO64
  }

  function S32(x: int): (r: int)
    ensures -TWO31 <= r < TWO31
    ensures -TWO31 <= x < TWO31 ==> r == x
  {
    (x + TWO31) % TWO32 - TWO31
  }

  /** C's division rounds toward zero. */
  function Quotient(x: int, y: int): int
    requires 0 < y
  {
    if x >= 0 then x / y else -(-x / y)
  }

  lemma WrapAdd(x: int, y: int)
    ensures U64(U64(x) + y) == U64(x + y)
  {
  }
}
