/**
 * Java's fixed-width integer types and the few conversions between them that
 * the modelled code relies on. Values are kept as mathematical integers
 * restricted to the Java range; conversions are written out explicitly.
 */
module JavaInt {

  type int8 = x: int | -0x80 <= x < 0x80
  type uint8 = x: int | 0 <= x < 0x100
  type int16 = x: int | -0x8000 <= x < 0x8000
  type uint16 = x: int | 0 <= x < 0x1_0000
  type int32 = x: int | -0x8000_0000 <= x < 0x8000_0000
  type int64 = x: int | -0x8000_0000_0000_0000 <= x < 0x8000_0000_0000_0000

  /** The Java `byte` whose bit pattern is `b`: the value a `byte[]` element holds. */
  function Signed8(b: uint8): (r: int8)
    ensures (r + 0x100) % 0x100 == b
    ensures b < 0x80 ==> r == b
  {
    if b < 0x80 then b else b - 0x100
  }

  /** `b & 0xff` of a Java `byte`. */
  function Unsigned8(b: int8): (r: uint8)
    ensures Signed8(r) == b
  {
    if b < 0 then b + 0x100 else b
  }

  /** `(byte) x`: the low eight bits of `x`, read as a signed byte. */
  function ToByte(x: int): (r: int8)
    ensures (r - x) % 0x100 == 0
  {
    Signed8(x % 0x100)
  }

  /** `1 << n` on a Java `int`: the shift distance is taken modulo 32. */
  function ShiftOne(n: nat): bv32
  {
    (1 as bv32) << (n % 32) as bv5
  }

  /** 2 to the power n. */
  function Pow2(n: nat): (r: nat)
    ensures r >= 1
  {
    if n == 0 then 1 else 2 * Pow2(n - 1)
  }

  // ---------------------------------------------------------------------------
  // Multiplication and division by a variable

  lemma MulMono(a: int, b: int, s: nat)
    requires a <= b
    ensures a * s <= b * s
  {
  }

  lemma MulLess(a: int, b: int, s: nat)
    requires a < b && s >= 1
    ensures a * s < b * s
  {
  }

  lemma MulSign(d: int, s: int)
    requires s >= 1
    ensures d >= 1 ==> d * s >= s
    ensures d <= -1 ==> d * s <= -s
  {
  }

  /** Quotient and remainder are the only pair that rebuild `x` with a remainder below `m`. */
  lemma DivModUnique(x: int, m: int, q: int, r: int)
    requires m > 0 && 0 <= r < m && x == q * m + r
    ensures x / m == q && x % m == r
  {
    assert (x / m - q) * m == r - x % m;
    MulSign(x / m - q, m);
  }
}
