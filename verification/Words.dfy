/** Machine words as ranges of integers, and the arithmetic that keeps to them. */
module Words {

  const W32 := 0x1_0000_0000
  const W64 := 0x1_0000_0000_0000_0000

  type byte = x: int | 0 <= x < 0x100
  type u32 = x: int | 0 <= x < 0x1_0000_0000
  type u64 = x: int | 0 <= x < 0x1_0000_0000_0000_0000
  type s32 = x: int | -0x8000_0000 <= x < 0x8000_0000
  type s64 = x: int | -0x8000_0000_0000_0000 <= x < 0x8000_0000_0000_0000
  type word = u32

  /** x modulo 2^32 */
  function Wrap(x: int): word { x % 0x1_0000_0000 }

  /** (s32)x: x modulo 2^32, in two's complement */
  function Int32(x: int): s32 {
    if Wrap(x) < 0x8000_0000 then Wrap(x) else Wrap(x) - W32
  }

  /** x & 0xff */
  function LowByte(x: int): byte { x % 0x100 }
}
