/** The centre-based `u32` rectangle of the earlier code generation, defined
    identically in src/shapes/rect.rs and src/pipeline/rect.rs. Unlike the
    eymo-img rectangle, its left and top edges saturate at 0, so every
    rectangle has edges. */
module SatRect {

  import opened Num
  import opened ImgGeom
  import FloatRect
  import Overlap

  datatype Rect = Rect(x: nat, y: nat, w: nat, h: nat)

  /** `u32::saturating_sub`. */
  function SatSub(a: nat, b: nat): (r: nat)
    ensures a >= b ==> r + b == a
    ensures a < b ==> r == 0
  {
    if a >= b then a - b else 0
  }

  function Left(r: Rect): nat {
    SatSub(r.x, r.w / 2)
  }

  function Right(r: Rect): nat {
    r.x + r.w / 2
  }

  function Top(r: Rect): nat {
    SatSub(r.y, r.h / 2)
  }

  function Bottom(r: Rect): nat {
    r.y + r.h / 2
  }

  function Area(r: Rect): nat {
    r.w * r.h
  }

  function Center(r: Rect): Point {
    Point(r.x, r.y)
  }

  /** The edges straddle the centre; the box spans at most the size, and
      exactly the size rounded down to even when nothing saturates. */
  lemma EdgesAroundCenter(r: Rect)
    ensures Left(r) <= r.x <= Right(r) && Top(r) <= r.y <= Bottom(r)
    ensures Right(r) - Left(r) <= r.w && Bottom(r) - Top(r) <= r.h
    ensures r.x >= r.w / 2 ==> Right(r) - Left(r) == r.w - r.w % 2
    ensures r.y >= r.h / 2 ==> Bottom(r) - Top(r) == r.h - r.h % 2
    ensures r.x < r.w / 2 ==> Left(r) == 0
    ensures r.y < r.h / 2 ==> Top(r) == 0
  {
  }

  /** `Rect::from_tl(x, y, w, h)`: the rectangle whose top-left corner is
      (x, y) and whose size is w by h. */
  function FromTl(x: nat, y: nat, w: nat, h: nat): (r: Rect)
    ensures Left(r) == x && Top(r) == y
    ensures Right(r) == x + w - w % 2 && Bottom(r) == y + h - h % 2
    ensures r.w == w && r.h == h
  {
    Rect(x + w / 2, y + h / 2, w, h)
  }

  /** `Rect::from_center`: the fields verbatim. */
  function FromCenter(xc: nat, yc: nat, w: nat, h: nat): Rect {
    Rect(xc, yc, w, h)
  }

  /** `from_center` and `center` are inverse on the centre. */
  lemma FromCenterRoundTrip(xc: nat, yc: nat, w: nat, h: nat)
    ensures Center(FromCenter(xc, yc, w, h)) == Point(xc, yc)
    ensures Area(FromCenter(xc, yc, w, h)) == w * h
  {
  }

  /** `Into<Rect> for RectF32`: each field rounded to `u32` on its own. */
  function FromF32(f: FloatRect.RectF32): (r: Rect)
    ensures r.x <= U32_MAX && r.y <= U32_MAX && r.w <= U32_MAX && r.h <= U32_MAX
  {
    Rect(RoundU32(f.x), RoundU32(f.y), RoundU32(f.w), RoundU32(f.h))
  }

  /** A float rectangle whose fields are whole `u32` values converts to
      exactly those values, and every in-range field moves by at most half a
      pixel. */
  lemma FromF32Rounds(f: FloatRect.RectF32)
    ensures 0.0 <= f.x <= U32_MAX as real ==> -0.5 <= FromF32(f).x as real - f.x <= 0.5
    ensures 0.0 <= f.w <= U32_MAX as real ==> -0.5 <= FromF32(f).w as real - f.w <= 0.5
    ensures forall a: nat, b: nat, c: nat, d: nat ::
      a <= U32_MAX && b <= U32_MAX && c <= U32_MAX && d <= U32_MAX ==>
      FromF32(FloatRect.RectF32(a as real, b as real, c as real, d as real)) == Rect(a, b, c, d)
  {
    forall a: nat, b: nat, c: nat, d: nat |
      a <= U32_MAX && b <= U32_MAX && c <= U32_MAX && d <= U32_MAX
      ensures FromF32(FloatRect.RectF32(a as real, b as real, c as real, d as real)) == Rect(a, b, c, d)
    {
      RoundOfInt(a);
      RoundOfInt(b);
      RoundOfInt(c);
      RoundOfInt(d);
    }
  }

  // ---------------------------------------------------------------------
  // Overlap

  function EdgeBox(r: Rect): Overlap.Box {
    Overlap.Box(Left(r), Right(r), Top(r), Bottom(r))
  }

  function OverlapArea(a: Rect, b: Rect): nat {
    Overlap.SharedArea(EdgeBox(a), EdgeBox(b))
  }

  /** The shared area is symmetric and fits inside each rectangle. */
  lemma OverlapWithin(a: Rect, b: Rect)
    ensures OverlapArea(a, b) == OverlapArea(b, a)
    ensures OverlapArea(a, b) <= Area(a) && OverlapArea(a, b) <= Area(b)
  {
    EdgesAroundCenter(a);
    EdgesAroundCenter(b);
    Overlap.SharedAreaFacts(EdgeBox(a), EdgeBox(b));
    Overlap.MulLe(Right(a) - Left(a), Bottom(a) - Top(a), a.w, a.h);
    Overlap.MulLe(Right(b) - Left(b), Bottom(b) - Top(b), b.w, b.h);
  }

  /** `overlap_pct`: the shared area as a percentage of the union's area,
      0 when the union is empty. It is 0 exactly when nothing is shared and
      100 exactly when both rectangles' areas equal the shared area. */
  function OverlapPct(a: Rect, b: Rect): (p: real)
    ensures 0.0 <= p <= 100.0
    ensures p == 0.0 <==> OverlapArea(a, b) == 0
    ensures p == 100.0 <==>
      OverlapArea(a, b) > 0 && OverlapArea(a, b) == Area(a) && OverlapArea(a, b) == Area(b)
  {
    OverlapWithin(a, b);
    Overlap.Pct(OverlapArea(a, b), Area(a), Area(b))
  }

  /** The percentage does not depend on the order of the operands. */
  lemma OverlapPctSymmetric(a: Rect, b: Rect)
    ensures OverlapPct(a, b) == OverlapPct(b, a)
  {
    OverlapWithin(a, b);
  }

  /** Rectangles whose edge boxes are apart on either axis do not overlap. */
  lemma DisjointNoOverlap(a: Rect, b: Rect)
    requires Right(a) <= Left(b) || Right(b) <= Left(a) || Bottom(a) <= Top(b) || Bottom(b) <= Top(a)
    ensures OverlapPct(a, b) == 0.0
  {
    Overlap.SeparatedShareNothing(EdgeBox(a), EdgeBox(b));
  }
}
