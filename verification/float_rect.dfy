/** `RectF32`: a centre-based rectangle of floats. The same record, with the
    same `adjust` and `scale`, appears in eymo-img/src/shapes/rect.rs,
    src/shapes/rect.rs and src/pipeline/rect.rs; the two `src/` copies add
    `from_center` and `center`. */
module FloatRect {

  datatype PointF32 = PointF32(x: real, y: real)

  datatype RectF32 = RectF32(x: real, y: real, w: real, h: real)

  /** `RectF32::default()`: the unit square centred on (1, 1). */
  const Default: RectF32 := RectF32(1.0, 1.0, 1.0, 1.0)

  function FromCenter(xc: real, yc: real, w: real, h: real): RectF32 {
    RectF32(xc, yc, w, h)
  }

  function Center(r: RectF32): PointF32 {
    PointF32(r.x, r.y)
  }

  /** `adjust(dx, dy, dw, dh)`: moves the centre by (dx, dy) and replaces the
      size with (dw, dh); despite their names the last two are absolute. */
  function Adjust(r: RectF32, dx: real, dy: real, dw: real, dh: real): RectF32 {
    RectF32(r.x + dx, r.y + dy, dw, dh)
  }

  /** `scale(sx, sy)`: scales the centre and the size, x by `sx`, y by `sy`. */
  function Scale(r: RectF32, sx: real, sy: real): RectF32 {
    RectF32(r.x * sx, r.y * sy, r.w * sx, r.h * sy)
  }

  /** `from_center` stores its arguments and `center` reads them back. */
  lemma FromCenterRoundTrip(xc: real, yc: real, w: real, h: real)
    ensures Center(FromCenter(xc, yc, w, h)) == PointF32(xc, yc)
    ensures FromCenter(xc, yc, w, h).w == w && FromCenter(xc, yc, w, h).h == h
  {
  }

  /** An adjustment is undone by the opposite shift with the old size. */
  lemma AdjustUndo(r: RectF32, dx: real, dy: real, dw: real, dh: real)
    ensures Adjust(Adjust(r, dx, dy, dw, dh), -dx, -dy, r.w, r.h) == r
  {
  }

  /** Adjusting moves the centre by exactly the shift and sets the size. */
  lemma AdjustMovesCenter(r: RectF32, dx: real, dy: real, dw: real, dh: real)
    ensures Center(Adjust(r, dx, dy, dw, dh)) == PointF32(r.x + dx, r.y + dy)
    ensures Adjust(r, dx, dy, dw, dh).w == dw && Adjust(r, dx, dy, dw, dh).h == dh
  {
  }

  /** Scaling by non-zero factors is undone by the reciprocal factors, and
      scaling keeps the centre-to-size ratio on each axis. */
  lemma ScaleUndo(r: RectF32, sx: real, sy: real)
    requires sx != 0.0 && sy != 0.0
    ensures Scale(Scale(r, sx, sy), 1.0 / sx, 1.0 / sy) == r
    ensures r.w != 0.0 ==> Scale(r, sx, sy).x / Scale(r, sx, sy).w == r.x / r.w
    ensures r.h != 0.0 ==> Scale(r, sx, sy).y / Scale(r, sx, sy).h == r.y / r.h
  {
    if r.w != 0.0 {
      assert (r.x * sx) / (r.w * sx) == r.x / r.w by {
        assert (r.x / r.w) * (r.w * sx) == r.x * sx;
      }
    }
    if r.h != 0.0 {
      assert (r.y * sy) / (r.h * sy) == r.y / r.h by {
        assert (r.y / r.h) * (r.h * sy) == r.y * sy;
      }
    }
    assert r.x * sx * (1.0 / sx) == r.x;
    assert r.y * sy * (1.0 / sy) == r.y;
    assert r.w * sx * (1.0 / sx) == r.w;
    assert r.h * sy * (1.0 / sy) == r.h;
  }

  /** Two scalings compose by multiplying their factors. */
  lemma ScaleCompose(r: RectF32, sx: real, sy: real, tx: real, ty: real)
    ensures Scale(Scale(r, sx, sy), tx, ty) == Scale(r, sx * tx, sy * ty)
  {
  }
}
