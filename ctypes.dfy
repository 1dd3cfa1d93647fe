/** Machine-level C semantics that main.c relies on: unsigned bytes, the
    widths of `size_t`, `int` and `long`, wrap-around of `size_t`
    multiplication, GCC's conversion of an out-of-range value to `int`, and
    C's truncating division. */
module CTypes {

  /** A `char` of a header or body chunk, read as an unsigned byte. */
  type Byte = b: int | 0 <= b < 256

  const SizeModulus: int := 0x1_0000_0000_0000_0000

  /** `size_t` on an LP64 target. */
  type SizeT = n: int | 0 <= n < SizeModulus

  const IntModulus: int := 0x1_0000_0000
  const IntMin: int := -0x8000_0000
  const IntMax: int := 0x7fff_ffff

  /** `long` on an LP64 target. */
  type Long = n: int | -0x8000_0000_0000_0000 <= n < 0x8000_0000_0000_0000

  /** `a * b` evaluated in `size_t`: the product reduced modulo 2^64. */
  function MulSize(a: SizeT, b: SizeT): (r: SizeT)
    ensures a * b < SizeModulus ==> r == a * b
    ensures (a * b - r) % SizeModulus == 0
  {
    (a * b) % SizeModulus
  }

  /** Conversion of an integer value to `int`. For a value out of range C
      leaves this to the implementation; GCC reduces it modulo 2^32 into
      [-2^31, 2^31). */
  function ToInt(x: int): (r: int)
    ensures IntMin <= r <= IntMax
    ensures (x - r) % IntModulus == 0
    ensures IntMin <= x <= IntMax ==> r == x
  {
    (x - IntMin) % IntModulus + IntMin
  }

  /** Values congruent modulo 2^32 convert to the same `int`. */
  lemma ToIntCongruent(x: int, y: int, k: int)
    requires x == y + k * IntModulus
    ensures ToInt(x) == ToInt(y)
  {
    assert (x - IntMin) % IntModulus == (y - IntMin) % IntModulus by {
      assert x - IntMin == (y - IntMin) + k * IntModulus;
    }
  }

  /** Adding to an already converted value and converting again is the same
      as converting the exact sum once: a counter that is converted after
      every addition always equals the converted exact total. */
  lemma ToIntAdd(x: int, d: int)
    ensures ToInt(ToInt(x) + d) == ToInt(x + d)
  {
    var k := (ToInt(x) - x) / IntModulus;
    assert ToInt(x) - x == k * IntModulus;
    ToIntCongruent(ToInt(x) + d, x + d, k);
  }

  /** C's `/` on integers: the exact quotient with its fractional part
      discarded, so it is rounded toward zero from either side. */
  function CDiv(a: int, b: int): (q: int)
    requires b > 0
    ensures a >= 0 ==> 0 <= q && q * b <= a < q * b + b
    ensures a < 0 ==> q <= 0 && q * b - b < a <= q * b
  {
    if a >= 0 then
      assert a == (a / b) * b + a % b && 0 <= a % b < b;
      a / b
    else
      assert -a == ((-a) / b) * b + (-a) % b && 0 <= (-a) % b < b;
      -((-a) / b)
  }

  /** C's `%` on integers: the remainder takes the sign of the dividend, so
      that `CDiv(a, b) * b + CRem(a, b) == a`. */
  function CRem(a: int, b: int): (m: int)
    requires b > 0
    ensures CDiv(a, b) * b + m == a
    ensures a >= 0 ==> 0 <= m < b
    ensures a < 0 ==> -b < m <= 0
  {
    a - CDiv(a, b) * b
  }
}
