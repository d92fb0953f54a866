/** Fixed-width arithmetic, written out over the integers. */
module Bits {
  const TWO8: int := 0x100
  const TWO16: int := 0x1_0000
  const TWO31: int := 0x8000_0000
  const TWO32: int := 0x1_0000_0000
  const TWO34: int := 0x4_0000_0000
  const TWO48: int := 0x1_0000_0000_0000
  const TWO64: int := 0x1_0000_0000_0000_0000

  type Byte = x: nat | x < 0x100
  type Word = x: nat | x < 0x1_0000_0000
  type Quad = x: nat | x < 0x1_0000_0000_0000_0000
  type Int32 = x: int | -0x8000_0000 <= x < 0x8000_0000

  /** The low 32 bits. */
  function Low32(x: int): Word { x % TWO32 }

  /** The low 64 bits. */
  function Low64(x: int): Quad { x % TWO64 }

  /** The value of a two's-complement field whose bits are `low`, with its sign bit worth `half`. */
  function TwosComplement(low: int, half: int): int { if low < half then low else low - 2 * half }

  /** The value of a 32-bit two's-complement field given x, and of fields of other widths. */
  function Signed32(x: int): (r: Int32)
    ensures -TWO31 <= x < TWO31 ==> r == x
  {
    TwosComplement(x % TWO32, TWO31)
  }

  function Signed34(x: int): (r: int)
    ensures -TWO34 / 2 <= x < TWO34 / 2 ==> r == x
  {
    TwosComplement(x % TWO34, TWO34 / 2)
  }

  function Signed48(x: int): (r: int)
    ensures -TWO48 / 2 <= x < TWO48 / 2 ==> r == x
  {
    TwosComplement(x % TWO48, TWO48 / 2)
  }

  function Signed64(x: int): (r: int)
    ensures -TWO64 / 2 <= x < TWO64 / 2 ==> r == x
  {
    TwosComplement(x % TWO64, TWO64 / 2)
  }

  lemma SmallMod(x: nat, m: nat)
    requires x < m
    ensures x % m == x
  {
  }

  /** A window or shift register: the oldest element drops out, a new one comes in. */
  function Push<T>(window: seq<T>, x: T): (r: seq<T>)
    requires window != []
    ensures |r| == |window|
  {
    window[1..] + [x]
  }

  function Max(x: int, y: int): int { if x >= y then x else y }
  function Min(x: int, y: int): int { if x <= y then x else y }
  function Abs(x: int): nat { if x >= 0 then x else -x }
}
