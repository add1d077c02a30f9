/** Java's 32-bit `int` arithmetic, written out over Dafny's unbounded integers.

    The planning state stores coordinates, amounts and stockpiles as Java
    `int`s; every subtraction, addition and `Math.abs` on them wraps around
    modulo 2^32 in two's complement. The functions here make that explicit so
    that the rest of the model computes what the JVM computes.
 */
module JavaInt {

  const MIN: int := -0x8000_0000
  const MAX: int := 0x7fff_ffff
  const MODULUS: int := 0x1_0000_0000

  /** The values a Java `int` can hold. */
  type Int32 = x: int | -0x8000_0000 <= x <= 0x7fff_ffff

  predicate InRange(v: int) {
    MIN <= v <= MAX
  }

  /** Java `a + b` on two `int`s: the exact sum, brought back into range by
      one modulus when it overflows. */
  function Add(a: Int32, b: Int32): (r: Int32)
    ensures InRange(a + b) ==> r == a + b
    ensures r == a + b || r == a + b - MODULUS || r == a + b + MODULUS
  {
    var v := a as int + b as int;
    if v > MAX then v - MODULUS else if v < MIN then v + MODULUS else v
  }

  /** Java `a - b` on two `int`s. */
  function Sub(a: Int32, b: Int32): (r: Int32)
    ensures InRange(a - b) ==> r == a - b
    ensures r == a - b || r == a - b - MODULUS || r == a - b + MODULUS
  {
    var v := a as int - b as int;
    if v > MAX then v - MODULUS else if v < MIN then v + MODULUS else v
  }

  /** `Math.abs(int)`: the magnitude, except that the most negative value
      is its own negation and stays negative. */
  function Abs(a: Int32): (r: Int32)
    ensures a != MIN ==> r >= 0 && (r == a || r == -a)
    ensures a == MIN ==> r == MIN
  {
    if a == MIN then MIN else if a < 0 then -(a as int) else a
  }

  /** `Math.max(int, int)`. */
  function Max(a: Int32, b: Int32): (r: Int32)
    ensures r >= a && r >= b
    ensures r == a || r == b
  {
    if a >= b then a else b
  }
}
