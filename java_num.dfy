/**
 * Java's numeric narrowing, written out.  A spreadsheet numeric cell holds a
 * double; the model keeps it as an unbounded integer, so only the integral
 * casts matter: `(int)` and `(long)` of a double saturate at the bounds of
 * the target type, while `(short)`, `(byte)` and `(char)` first go through
 * `(int)` and then keep the low 16 or 8 bits.
 */
module JavaNum {

  const INT_MIN: int := -0x8000_0000
  const INT_MAX: int := 0x7FFF_FFFF
  const LONG_MIN: int := -0x8000_0000_0000_0000
  const LONG_MAX: int := 0x7FFF_FFFF_FFFF_FFFF

  predicate InInt(x: int) { INT_MIN <= x <= INT_MAX }
  predicate InLong(x: int) { LONG_MIN <= x <= LONG_MAX }
  predicate InShort(x: int) { -0x8000 <= x <= 0x7FFF }
  predicate InByte(x: int) { -0x80 <= x <= 0x7F }

  /** `(int) d` for a double `d` holding the integer `x`. */
  function Int32(x: int): (r: int)
    ensures InInt(r)
    ensures InInt(x) ==> r == x
    ensures x < INT_MIN ==> r == INT_MIN
    ensures x > INT_MAX ==> r == INT_MAX
  {
    if x < INT_MIN then INT_MIN else if x > INT_MAX then INT_MAX else x
  }

  /** `(long) d` for a double `d` holding the integer `x`. */
  function Int64(x: int): (r: int)
    ensures InLong(r)
    ensures InLong(x) ==> r == x
    ensures x < LONG_MIN ==> r == LONG_MIN
    ensures x > LONG_MAX ==> r == LONG_MAX
  {
    if x < LONG_MIN then LONG_MIN else if x > LONG_MAX then LONG_MAX else x
  }

  /** `Long.intValue()`: the low 32 bits of a long, sign-extended. */
  function IntValue(x: int): (r: int)
    ensures InInt(r)
    ensures (r - x) % 0x1_0000_0000 == 0
    ensures InInt(x) ==> r == x
  {
    (x + 0x8000_0000) % 0x1_0000_0000 - 0x8000_0000
  }

  /** `(short) d`: `(int)` first, then the low 16 bits, sign-extended. */
  function Int16(x: int): (r: int)
    ensures InShort(r)
    ensures (r - Int32(x)) % 0x1_0000 == 0
    ensures InShort(x) ==> r == x
  {
    (Int32(x) + 0x8000) % 0x1_0000 - 0x8000
  }

  /** `(byte) d`: `(int)` first, then the low 8 bits, sign-extended. */
  function Int8(x: int): (r: int)
    ensures InByte(r)
    ensures (r - Int32(x)) % 0x100 == 0
    ensures InByte(x) ==> r == x
  {
    (Int32(x) + 0x80) % 0x100 - 0x80
  }

  /** `(char) d`: `(int)` first, then the low 16 bits, unsigned. */
  function UInt16(x: int): (r: int)
    ensures 0 <= r < 0x1_0000
    ensures 0 <= x < 0x1_0000 ==> r == x
  {
    Int32(x) % 0x1_0000
  }
}
