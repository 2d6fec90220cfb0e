/** The fixed-width unsigned types of the C code, and LWIP_MIN. */
module Words {
  type U8 = x: int | 0 <= x < 0x100
  type U16 = x: int | 0 <= x < 0x1_0000
  type U32 = x: int | 0 <= x < 0x1_0000_0000

  function Min(x: int, y: int): int {
    if x < y then x else y
  }
}
