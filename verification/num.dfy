/** Machine-number semantics the Rust source relies on, stated over Dafny's
    unbounded `int` and `real`.

    `f32` values are modelled as `real` (no precision loss); `round()` rounds
    half away from zero; float-to-integer `as` casts saturate; `%` on `i32`
    truncates toward zero; `i32 as usize` wraps modulo 2^64 and `usize as i32`
    keeps the low 32 bits. */
module Num {

  const U32_MAX: int := 0xFFFF_FFFF
  const I32_MIN: int := -0x8000_0000
  const I32_MAX: int := 0x7FFF_FFFF
  const USIZE_MOD: int := 0x1_0000_0000_0000_0000
  const U32_MOD: int := 0x1_0000_0000

  predicate IsI32(v: int) {
    I32_MIN <= v <= I32_MAX
  }

  /** `n` is the nearest integer to `r`, a half rounded away from zero. */
  predicate RoundsTo(r: real, n: int) {
    if r >= 0.0 then (n as real) - 0.5 <= r < (n as real) + 0.5
    else (n as real) - 0.5 < r <= (n as real) + 0.5
  }

  /** Every real has a nearest integer: `floor(r + 1/2)` from above zero,
      and its mirror image below. */
  lemma RoundExists(r: real)
    ensures exists n :: RoundsTo(r, n)
  {
    if r >= 0.0 {
      assert RoundsTo(r, (r + 0.5).Floor);
    } else {
      assert RoundsTo(r, -((-r + 0.5).Floor));
    }
  }

  /** `f32::round`: the nearest integer, halves rounded away from zero. */
  function Round(r: real): (n: int)
    ensures r >= 0.0 ==> 0 <= n && (n as real) - 0.5 <= r < (n as real) + 0.5
    ensures r < 0.0 ==> n <= 0 && (n as real) - 0.5 < r <= (n as real) + 0.5
  {
    RoundExists(r);
    var n :| RoundsTo(r, n);
    n
  }

  /** A float `as u32` cast: saturates at both ends. */
  function U32Sat(i: int): (n: nat)
    ensures n <= U32_MAX
    ensures 0 <= i <= U32_MAX ==> n == i
    ensures i < 0 ==> n == 0
    ensures i > U32_MAX ==> n == U32_MAX
  {
    if i < 0 then 0 else if i > U32_MAX then U32_MAX else i
  }

  /** A float `as i32` cast: saturates at both ends. */
  function I32Sat(i: int): (n: int)
    ensures IsI32(n)
    ensures IsI32(i) ==> n == i
    ensures i < I32_MIN ==> n == I32_MIN
    ensures i > I32_MAX ==> n == I32_MAX
  {
    if i < I32_MIN then I32_MIN else if i > I32_MAX then I32_MAX else i
  }

  /** `round() as u32` of a float. */
  function RoundU32(r: real): (n: nat)
    ensures n <= U32_MAX
    ensures r < 0.0 ==> n == 0
  {
    U32Sat(Round(r))
  }

  /** `round() as i32` of a float. */
  function RoundI32(r: real): (n: int)
    ensures IsI32(n)
  {
    I32Sat(Round(r))
  }

  /** Rust's `/` on signed integers (positive divisor): the quotient is
      truncated toward zero. */
  function TDiv(a: int, b: int): (q: int)
    requires b > 0
    ensures a >= 0 ==> q == a / b
    ensures a < 0 ==> q == -((-a) / b)
  {
    if a >= 0 then a / b else -((-a) / b)
  }

  /** Rust's `%` on signed integers (positive divisor): the remainder takes
      the sign of the dividend and completes the truncating division. */
  function TRem(a: int, b: int): (r: int)
    requires b > 0
    ensures a >= 0 ==> 0 <= r < b
    ensures a < 0 ==> -b < r <= 0
    ensures a == TDiv(a, b) * b + r
  {
    if a >= 0 then a % b else -((-a) % b)
  }

  /** `n` with its lowest bit cleared: the even number just at or below it,
      as `2 * (n / 2)` gives in integer arithmetic. */
  function DownToEven(n: nat): (e: nat)
    ensures e % 2 == 0 && e <= n < e + 2
  {
    n - n % 2
  }

  function Abs(a: int): nat {
    if a < 0 then -a else a
  }

  /** `v as usize` for an `i32` on a 64-bit target: negatives wrap to 2^64 + v. */
  function UsizeOfI32(v: int): (n: nat)
    requires IsI32(v)
    ensures v >= 0 ==> n == v
    ensures v < 0 ==> n >= USIZE_MOD - 0x8000_0000
  {
    if v >= 0 then v else USIZE_MOD + v
  }

  /** `n as i32` for a `usize`: the low 32 bits, read as two's complement. */
  function I32OfUsize(n: nat): (v: int)
    ensures IsI32(v)
    ensures (n - v) % U32_MOD == 0
  {
    var m := n % U32_MOD;
    if m > I32_MAX then m - U32_MOD else m
  }

  /** Casting an `i32` to `usize` and back is the identity. */
  lemma I32UsizeRoundTrip(v: int)
    requires IsI32(v)
    ensures I32OfUsize(UsizeOfI32(v)) == v
  {
    if v < 0 {
      var n := USIZE_MOD + v;
      assert n == (0xFFFF_FFFF * U32_MOD) + (U32_MOD + v);
      assert n % U32_MOD == U32_MOD + v;
    }
  }

  /** Rounding is monotone. */
  lemma RoundMonotone(a: real, b: real)
    requires a <= b
    ensures Round(a) <= Round(b)
  {
  }

  /** Rounding an integral value gives that value back. */
  lemma RoundOfInt(k: int)
    ensures Round(k as real) == k
  {
  }

  /** For non-negative integers and a positive divisor, rounding the real
      quotient is the integer quotient rounded half up. */
  lemma RoundQuotient(d: nat, q: nat)
    requires q > 0
    ensures Round(d as real / q as real) == (2 * d + q) / (2 * q)
  {
    var k := (2 * d + q) / (2 * q);
    var rem := (2 * d + q) % (2 * q);
    assert 2 * d + q == k * (2 * q) + rem;
    var r := d as real / q as real;
    assert r * (q as real) == d as real;
    // (2d + q) / (2q) = r + 1/2, so k <= r + 1/2 < k + 1
    assert (k as real) * (2.0 * q as real) <= 2.0 * (d as real) + (q as real);
    assert 2.0 * (d as real) + (q as real) < (k as real + 1.0) * (2.0 * q as real);
    assert (r + 0.5) * (2.0 * q as real) == 2.0 * (d as real) + (q as real);
    LessByPositive(k as real, r + 0.5, 2.0 * q as real);
    LessByPositiveStrict(r + 0.5, k as real + 1.0, 2.0 * q as real);
  }

  lemma LessByPositive(a: real, b: real, c: real)
    requires c > 0.0 && a * c <= b * c
    ensures a <= b
  {
  }

  lemma LessByPositiveStrict(a: real, b: real, c: real)
    requires c > 0.0 && a * c < b * c
    ensures a < b
  {
  }
}
