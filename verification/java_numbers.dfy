/** Java's fixed-width integers, written out explicitly over Dafny's unbounded `int`. */
module JavaNumbers {

  const TwoTo63: int := 0x8000_0000_0000_0000
  const TwoTo64: int := 0x1_0000_0000_0000_0000
  const LongMin: int := -TwoTo63
  const LongMax: int := TwoTo63 - 1

  /** A Java `long`. */
  type Long = x: int | -0x8000_0000_0000_0000 <= x < 0x8000_0000_0000_0000

  /** A Java `int`. */
  type Int = x: int | -0x8000_0000 <= x < 0x8000_0000

  /** An unsigned 64-bit value (Teku's `UInt64`). */
  type U64 = x: int | 0 <= x < 0x1_0000_0000_0000_0000

  /** `UInt64.longValue()`: the same 64 bits read as a two's-complement `long`. */
  function LongValue(u: U64): (r: Long)
    ensures (r - u) % TwoTo64 == 0
    ensures 0 <= r <==> u < TwoTo63
  {
    if u < TwoTo63 then u else u - TwoTo64
  }

  /** `AtomicLong.incrementAndGet()`: adds one, wrapping from the largest `long` to the smallest. */
  function LongInc(x: Long): (r: Long)
    ensures x < LongMax ==> r == x + 1
    ensures x == LongMax ==> r == LongMin
  {
    if x == LongMax then LongMin else x + 1
  }
}
