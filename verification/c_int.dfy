/** The parts of C integer arithmetic, on the 32-bit ESP32-S3 target, that the streaming core depends on. */
module CInt {

  /** 2^32: the modulus of `uint32_t` and of `size_t` on the target. */
  const U32Modulus: int := 0x1_0000_0000

  /** 2^31: the bound of `int` (32 bits, two's complement) on the target. */
  const I32Bound: int := 0x8000_0000

  /** Values of `size_t` / `uint32_t`. */
  type U32 = x: int | 0 <= x < 0x1_0000_0000

  /** Values of `int` / `int32_t`. */
  type I32 = x: int | -0x8000_0000 <= x < 0x8000_0000

  /** C's `/` on a signed dividend and positive divisor: the quotient is truncated toward zero,
      so the remainder takes the sign of the dividend (Dafny's own `/` is Euclidean). */
  function TruncDiv(a: int, b: int): (q: int)
    requires 0 < b
    ensures 0 <= a ==> 0 <= q && 0 <= a - q * b < b
    ensures a < 0 ==> q <= 0 && -b < a - q * b <= 0
  {
    if 0 <= a then EuclidDiv(a, b)
    else
      var e := EuclidDiv(-a, b);
      assert (-e) * b == -(e * b);
      -e
  }

  /** Division of a non-negative dividend, with the remainder bound spelled out. */
  function EuclidDiv(a: int, b: int): (q: int)
    requires 0 <= a && 0 < b
    ensures 0 <= q && 0 <= a - q * b < b
  {
    var q := a / b;
    assert a == b * q + a % b;
    q
  }

  /** Dividing an exact multiple gives back the factor, whatever its sign. */
  lemma TruncDivOfMultiple(c: int, k: int)
    requires 0 < k
    ensures TruncDiv(c * k, k) == c
  {
    var q := TruncDiv(c * k, k);
    var d := c - q;
    assert c * k - q * k == d * k;
    assert d >= 1 ==> d * k >= 1 * k;
    assert d <= -1 ==> (-d) * k >= 1 * k;
  }

  /** Conversion of a signed `int` to `unsigned int` (the usual arithmetic conversions): reduction modulo 2^32. */
  function ToU32(x: int): (u: U32)
    ensures 0 <= x < U32Modulus ==> u == x
    ensures -I32Bound <= x < 0 ==> u == x + U32Modulus
  {
    x % U32Modulus
  }

  /** Conversion of an `unsigned int` result back to `int` (GCC: reduction modulo 2^32 into the signed range). */
  function ToI32(u: U32): (x: I32)
    ensures 0 <= u < I32Bound ==> x == u
    ensures I32Bound <= u ==> x == u - U32Modulus
    ensures ToU32(x) == u
  {
    if u < I32Bound then u else u - U32Modulus
  }
}
