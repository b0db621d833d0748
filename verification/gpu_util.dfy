/** src/imggpu/util.rs: row padding for texture copies and rounding-up
    division. */
module GpuUtil {

  /** The row alignment wgpu demands of buffer copies, in bytes. */
  const ROW_ALIGN: nat := 256

  /** Four bytes per RGBA pixel. */
  const BYTES_PER_PIXEL: nat := 4

  /** `padded_bytes_per_row(width)`: the row length in bytes rounded up to
      the next multiple of 256. */
  function PaddedBytesPerRow(width: nat): (r: nat)
    ensures r % ROW_ALIGN == 0
    ensures BYTES_PER_PIXEL * width <= r < BYTES_PER_PIXEL * width + ROW_ALIGN
    ensures (BYTES_PER_PIXEL * width) % ROW_ALIGN == 0 ==> r == BYTES_PER_PIXEL * width
  {
    var bytesPerRow := width * BYTES_PER_PIXEL;
    var padding := (ROW_ALIGN - bytesPerRow % ROW_ALIGN) % ROW_ALIGN;
    bytesPerRow + padding
  }

  /** No multiple of 256 lies between the row length and the padded length,
      so the padding is the least that aligns the row. */
  lemma PaddingIsLeast(width: nat, m: nat)
    requires m % ROW_ALIGN == 0 && BYTES_PER_PIXEL * width <= m
    ensures PaddedBytesPerRow(width) <= m
  {
    var r := PaddedBytesPerRow(width);
    var p, q := r / ROW_ALIGN, m / ROW_ALIGN;
    assert r == ROW_ALIGN * p && m == ROW_ALIGN * q;
    assert ROW_ALIGN * p < ROW_ALIGN * (q + 1);
    assert p <= q;
  }

  /** `int_div_round_up(a, b)`: the quotient, plus one when there is a
      remainder. Dividing by zero panics in the source, so `b > 0`. */
  function IntDivRoundUp(a: nat, b: nat): (r: nat)
    requires b > 0
    ensures r * b >= a
    ensures a > 0 ==> (r - 1) * b < a
    ensures a == 0 ==> r == 0
  {
    a / b + (if a % b == 0 then 0 else 1)
  }

  /** The result is the least count of `b`-sized blocks holding `a`. */
  lemma DivRoundUpIsLeast(a: nat, b: nat, k: nat)
    requires b > 0 && k * b >= a
    ensures IntDivRoundUp(a, b) <= k
  {
  }
}
