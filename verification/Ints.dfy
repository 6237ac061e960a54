/** The machine integers of the source. */
module Ints {

  type Int4 = x: int | -0x8000_0000 <= x < 0x8000_0000 witness 0

  /** Conversion to int4, as overflowing int arithmetic leaves it. */
  function Wrap32(x: int): (r: Int4)
    ensures -0x8000_0000 <= x < 0x8000_0000 ==> r == x
    ensures 0x8000_0000 <= x < 0x1_0000_0000 ==> r == x - 0x1_0000_0000
  {
    (x + 0x8000_0000) % 0x1_0000_0000 - 0x8000_0000
  }

  /** Conversion to int2. */
  function Wrap16(x: int): (r: int)
    ensures -0x8000 <= r < 0x8000
    ensures -0x8000 <= x < 0x8000 ==> r == x
  {
    (x + 0x8000) % 0x1_0000 - 0x8000
  }
}
