/** eymo-img/src/shapes/util.rs: rounding helpers over `u32` (the same two
    functions are repeated privately in eymo-img/src/shapes/polygon.rs). */
module ImgUtil {

  import opened Num

  /** `rounded_div(d, q)`: `d / q` computed in floating point, rounded, then
      cast back to `u32`. A zero divisor follows IEEE semantics: `0 / 0` is NaN,
      which casts to 0, and `d / 0` for `d > 0` is infinite, which saturates. */
  function RoundedDiv(d: nat, q: nat): (r: nat)
    requires d <= U32_MAX
    ensures q > 0 ==> r == (2 * d + q) / (2 * q)
    ensures q > 0 ==> r <= d + 1
    ensures q == 0 ==> r == (if d == 0 then 0 else U32_MAX)
  {
    if q == 0 then
      (if d == 0 then 0 else U32_MAX)
    else
      RoundQuotient(d, q);
      QuotientBound(d, q);
      RoundU32(d as real / q as real)
  }

  lemma QuotientBound(d: nat, q: nat)
    requires q > 0
    ensures (2 * d + q) / (2 * q) <= d + 1
  {
    var k := (2 * d + q) / (2 * q);
    assert k * (2 * q) <= 2 * d + q;
    assert d * q >= d;
    assert (d + 1) * (2 * q) == 2 * (d * q) + 2 * q;
    CancelFactor(k, d + 1, 2 * q);
  }

  lemma CancelFactor(a: int, b: int, c: int)
    requires c > 0 && a * c < b * c
    ensures a < b
  {
  }

  /** `mult(v, f)`: `v * f` in floating point, rounded, cast to `u32`. */
  function Mult(v: nat, f: real): (r: nat)
    ensures r <= U32_MAX
    ensures f < 0.0 && v > 0 ==> r == 0
  {
    if f < 0.0 && v > 0 then
      assert (v as real) * f < 0.0;
      RoundU32(v as real * f)
    else
      RoundU32(v as real * f)
  }

  /** Dividing by one is the identity on `u32`. */
  lemma RoundedDivByOne(d: nat)
    requires d <= U32_MAX
    ensures RoundedDiv(d, 1) == d
  {
  }

  /** The half-up rounding behaviour pinned down by the source's unit test. */
  lemma RoundedDivExamples()
    ensures RoundedDiv(10, 3) == 3
    ensures RoundedDiv(10, 4) == 3
    ensures RoundedDiv(5, 2) == 3
    ensures RoundedDiv(5, 4) == 1
    ensures RoundedDiv(20, 4) == 5
  {
  }

  /** Multiplying by one is the identity on `u32`. */
  lemma MultByOne(v: nat)
    requires v <= U32_MAX
    ensures Mult(v, 1.0) == v
  {
    RoundOfInt(v);
  }

  /** Zero stays zero under any factor. */
  lemma MultOfZero(f: real)
    ensures Mult(0, f) == 0
  {
    assert (0 as real) * f == 0.0;
    RoundOfInt(0);
  }

  /** For non-negative factors, a larger factor never gives a smaller result. */
  lemma MultMonotone(v: nat, f: real, g: real)
    requires 0.0 <= f <= g
    ensures Mult(v, f) <= Mult(v, g)
  {
    assert (v as real) * f <= (v as real) * g;
    RoundMonotone(v as real * f, v as real * g);
  }
}
