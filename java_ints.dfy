/** Java's fixed-width integer arithmetic written out over unbounded Dafny integers. */
module JavaInts {

  const TWO_32: int := 0x1_0000_0000
  const TWO_64: int := 0x1_0000_0000_0000_0000
  const INT_MIN: int := -0x8000_0000
  const INT_MAX: int := 0x7FFF_FFFF
  const LONG_MIN: int := -0x8000_0000_0000_0000
  const LONG_MAX: int := 0x7FFF_FFFF_FFFF_FFFF

  predicate IsInt(x: int) { INT_MIN <= x <= INT_MAX }

  predicate IsLong(x: int) { LONG_MIN <= x <= LONG_MAX }

  /** The Java `int` with the same low 32 bits as x (two's-complement wrap-around). */
  function Wrap32(x: int): (r: int)
    ensures IsInt(r)
    ensures IsInt(x) ==> r == x
  {
    var m := x % TWO_32;
    if m > INT_MAX then m - TWO_32 else m
  }

  /** The Java `long` with the same low 64 bits as x. */
  function Wrap64(x: int): (r: int)
    ensures IsLong(r)
    ensures IsLong(x) ==> r == x
    ensures 0 <= x < TWO_64 ==> r == (if x > LONG_MAX then x - TWO_64 else x)
  {
    var m := x % TWO_64;
    if m > LONG_MAX then m - TWO_64 else m
  }

  /** Math.abs on an int: |x|, except that Math.abs(Integer.MIN_VALUE) is Integer.MIN_VALUE. */
  function AbsInt(x: int): (r: int)
    requires IsInt(x)
    ensures IsInt(r)
    ensures r < 0 <==> x == INT_MIN
  {
    if x == INT_MIN then INT_MIN else if x < 0 then -x else x
  }

  /** Java's `%` for a positive divisor: the remainder takes the sign of the dividend. */
  function Rem(a: int, b: int): (r: int)
    requires b > 0
    ensures -b < r < b
    ensures a >= 0 ==> r == a % b
    ensures r < 0 ==> a < 0
  {
    if a >= 0 then a % b else -((-a) % b)
  }

  /** String.hashCode: h = 31 * h + c over the characters, in int arithmetic. */
  function StringHash(s: string): (r: int)
    ensures IsInt(r)
  {
    if s == [] then 0 else Wrap32(31 * StringHash(s[..|s| - 1]) + s[|s| - 1] as int)
  }
}
