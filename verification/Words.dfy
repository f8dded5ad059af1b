/** The machine's bytes and 32-bit words. */
module Words {

  const WORD := 0x1_0000_0000

  type Byte = x: int | 0 <= x < 256
  type U32 = x: int | 0 <= x < WORD

  /** Address arithmetic is modulo 2^32. */
  function Wrap32(x: nat): U32 { if x < WORD then x else Wrap32(x - WORD) }
}
