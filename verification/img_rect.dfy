/** eymo-img/src/shapes/rect.rs: the integer rectangle, stored by its centre
    point and its size. Edges are half the size away from the centre, so an
    odd width or height loses its last pixel when turned into edges. */
module ImgRect {

  import opened Num
  import opened ImgGeom
  import FloatRect
  import Overlap

  datatype Rect = Rect(x: nat, y: nat, w: nat, h: nat)

  /** All four fields fit the source's `u32`. */
  predicate IsU32Rect(r: Rect) {
    r.x <= U32_MAX && r.y <= U32_MAX && r.w <= U32_MAX && r.h <= U32_MAX
  }

  /** `left()` and `top()` subtract half the size from the centre without
      saturating; they are defined only when that does not go below zero. */
  predicate HasEdges(r: Rect) {
    r.x >= r.w / 2 && r.y >= r.h / 2
  }

  function Left(r: Rect): nat
    requires r.x >= r.w / 2
  {
    r.x - r.w / 2
  }

  function Right(r: Rect): nat {
    r.x + r.w / 2
  }

  function Top(r: Rect): nat
    requires r.y >= r.h / 2
  {
    r.y - r.h / 2
  }

  function Bottom(r: Rect): nat {
    r.y + r.h / 2
  }

  function Area(r: Rect): nat {
    r.w * r.h
  }

  function Center(r: Rect): Point {
    Point(r.x, r.y)
  }

  /** The edges straddle the centre and span the size rounded down to even. */
  lemma EdgesAroundCenter(r: Rect)
    requires HasEdges(r)
    ensures Left(r) <= r.x <= Right(r) && Top(r) <= r.y <= Bottom(r)
    ensures Right(r) - Left(r) == r.w - r.w % 2
    ensures Bottom(r) - Top(r) == r.h - r.h % 2
  {
  }

  /** `Rect::from_tl(x, y, w, h)`: the rectangle whose top-left corner is
      (x, y) and whose size is w by h. */
  function FromTl(x: nat, y: nat, w: nat, h: nat): (r: Rect)
    ensures HasEdges(r)
    ensures Left(r) == x && Top(r) == y
    ensures r.w == w && r.h == h
  {
    Rect(x + w / 2, y + h / 2, w, h)
  }

  /** `points()`: the corners in the order top-right, top-left, bottom-left,
      bottom-right: from the top-right corner round the rectangle, each
      corner sharing an edge with the next and the last with the first. */
  function Points(r: Rect): (ps: seq<Point>)
    requires HasEdges(r)
    ensures |ps| == 4
    ensures ps[0] == Point(Right(r), Top(r))
    ensures ps[0].y == ps[1].y && ps[1].x == ps[2].x && ps[2].y == ps[3].y && ps[3].x == ps[0].x
    ensures ps[1].x <= ps[0].x && ps[1].y <= ps[2].y
  {
    [Point(Right(r), Top(r)), Point(Left(r), Top(r)),
     Point(Left(r), Bottom(r)), Point(Right(r), Bottom(r))]
  }

  /** `From<Rect> for Polygon`: the corners in the order top-left, top-right,
      bottom-right, bottom-left: from the top-left corner round the
      rectangle the other way, each corner sharing an edge with the next. */
  function ToPolygon(r: Rect): (p: Polygon)
    requires HasEdges(r)
    ensures |p.points| == 4
    ensures p.points[0] == Point(Left(r), Top(r))
    ensures p.points[0].y == p.points[1].y && p.points[1].x == p.points[2].x &&
      p.points[2].y == p.points[3].y && p.points[3].x == p.points[0].x
    ensures p.points[0].x <= p.points[1].x && p.points[1].y <= p.points[2].y
  {
    Polygon([Point(Left(r), Top(r)), Point(Right(r), Top(r)),
             Point(Right(r), Bottom(r)), Point(Left(r), Bottom(r))])
  }

  /** Both corner lists name the same four corners: `points()` is the
      polygon's list with each pair of neighbours swapped, and every corner
      is one of the four edge combinations. */
  lemma PointsArePolygonCorners(r: Rect)
    requires HasEdges(r)
    ensures var p := ToPolygon(r).points;
      Points(r) == [p[1], p[0], p[3], p[2]]
    ensures forall i :: 0 <= i < 4 ==>
      (Points(r)[i].x == Left(r) || Points(r)[i].x == Right(r)) &&
      (Points(r)[i].y == Top(r) || Points(r)[i].y == Bottom(r))
  {
  }

  // ---------------------------------------------------------------------
  // Equality and ordering

  datatype Ordering = Less | Equal | Greater

  function Flip(o: Ordering): Ordering {
    match o
    case Less => Greater
    case Equal => Equal
    case Greater => Less
  }

  function CmpNat(a: nat, b: nat): (o: Ordering)
    ensures o == Less <==> a < b
    ensures o == Equal <==> a == b
    ensures o == Greater <==> a > b
  {
    if a < b then Less else if a == b then Equal else Greater
  }

  /** `PartialEq for Rect`: all four fields agree. */
  predicate Eq(a: Rect, b: Rect) {
    a.x == b.x && a.y == b.y && a.w == b.w && a.h == b.h
  }

  /** `Ord for Rect`: by centre x, then centre y, then area. */
  function Cmp(a: Rect, b: Rect): Ordering {
    var ox := CmpNat(a.x, b.x);
    if ox != Equal then ox
    else
      var oy := CmpNat(a.y, b.y);
      if oy != Equal then oy else CmpNat(Area(a), Area(b))
  }

  /** The ordering is lexicographic over (x, y, area). */
  lemma CmpLexicographic(a: Rect, b: Rect)
    ensures Cmp(a, b) == Less <==>
      a.x < b.x || (a.x == b.x && (a.y < b.y || (a.y == b.y && Area(a) < Area(b))))
    ensures Cmp(a, b) == Equal <==> a.x == b.x && a.y == b.y && Area(a) == Area(b)
  {
  }

  /** Swapping the operands flips the answer. */
  lemma CmpAntisymmetric(a: Rect, b: Rect)
    ensures Cmp(b, a) == Flip(Cmp(a, b))
  {
  }

  /** "Not greater" is transitive, so `Cmp` is a total preorder. */
  lemma CmpTransitive(a: Rect, b: Rect, c: Rect)
    requires Cmp(a, b) != Greater && Cmp(b, c) != Greater
    ensures Cmp(a, c) != Greater
  {
  }

  /** Equal rectangles compare `Equal`. */
  lemma EqImpliesCmpEqual(a: Rect, b: Rect)
    requires Eq(a, b)
    ensures Cmp(a, b) == Equal
  {
  }

  /** The converse fails: two rectangles with the same centre and area but
      different shapes compare `Equal` while `eq` says they differ. */
  lemma CmpEqualIsCoarserThanEq()
    ensures Cmp(Rect(5, 5, 2, 8), Rect(5, 5, 4, 4)) == Equal
    ensures !Eq(Rect(5, 5, 2, 8), Rect(5, 5, 4, 4))
  {
  }

  // ---------------------------------------------------------------------
  // Scaling about the centre

  function RMax(a: real, b: real): real {
    if a >= b then a else b
  }

  function Min(a: nat, b: nat): nat {
    if a <= b then a else b
  }

  function Max(a: int, b: int): int {
    if a >= b then a else b
  }

  /** `scale_x`'s new left edge: clamp at 0, then round. */
  function LowX(c: nat, size: nat, mag: real): nat {
    RoundU32(RMax(c as real - size as real * mag / 2.0, 0.0))
  }

  /** `scale_y`'s new top edge: round, then clamp at 0. */
  function LowY(c: nat, size: nat, mag: real): nat {
    U32Sat(Max(Round(c as real - size as real * mag / 2.0), 0))
  }

  /** The new far edge, rounded and capped at `max`. */
  function High(c: nat, size: nat, mag: real, max: nat): nat {
    Min(RoundU32(c as real + size as real * mag / 2.0), max)
  }

  /** The two axes clamp and round in opposite orders, with the same result. */
  lemma LowFormsAgree(c: nat, size: nat, mag: real)
    ensures LowX(c, size, mag) == LowY(c, size, mag)
  {
  }

  /** `scale_x(mag, max)`: scales the width by `mag` about the centre, keeping
      the left edge at or above 0 and the right edge at or below `max`. The
      source subtracts the new edges in `u32`, so it requires them ordered. */
  function ScaleX(r: Rect, mag: real, max: nat): (s: Rect)
    requires LowX(r.x, r.w, mag) <= High(r.x, r.w, mag, max)
    ensures s.y == r.y && s.h == r.h
    ensures s.x >= s.w / 2
    ensures Left(s) == LowX(r.x, r.w, mag)
    ensures Right(s) <= High(r.x, r.w, mag, max) <= max
    ensures High(r.x, r.w, mag, max) <= Right(s) + 1
  {
    var l := LowX(r.x, r.w, mag);
    var w := High(r.x, r.w, mag, max) - l;
    Rect(l + w / 2, r.y, w, r.h)
  }

  /** `scale_y(mag, max)`: the same on the vertical axis. */
  function ScaleY(r: Rect, mag: real, max: nat): (s: Rect)
    requires LowY(r.y, r.h, mag) <= High(r.y, r.h, mag, max)
    ensures s.x == r.x && s.w == r.w
    ensures s.y >= s.h / 2
    ensures Top(s) == LowY(r.y, r.h, mag)
    ensures Bottom(s) <= High(r.y, r.h, mag, max) <= max
    ensures High(r.y, r.h, mag, max) <= Bottom(s) + 1
  {
    var t := LowY(r.y, r.h, mag);
    var h := High(r.y, r.h, mag, max) - t;
    Rect(r.x, t + h / 2, r.w, h)
  }

  /** `scale(mag, max_x, max_y)`: `scale_x` then `scale_y`. The result has
      both edges defined, and they lie inside [0, max_x] by [0, max_y]. */
  function Scale(r: Rect, mag: real, maxX: nat, maxY: nat): (s: Rect)
    requires LowX(r.x, r.w, mag) <= High(r.x, r.w, mag, maxX)
    requires LowY(r.y, r.h, mag) <= High(r.y, r.h, mag, maxY)
    ensures HasEdges(s)
    ensures Left(s) == LowX(r.x, r.w, mag) && Top(s) == LowY(r.y, r.h, mag)
    ensures Right(s) <= maxX && Bottom(s) <= maxY
  {
    ScaleY(ScaleX(r, mag, maxX), mag, maxY)
  }

  lemma RoundHalfAbove(n: nat)
    ensures Round(n as real + 0.5) == n + 1
  {
  }

  lemma RoundHalfBelowZero()
    ensures Round(-0.5) == -1
  {
  }

  /** At magnitude 1 the new near edge is the old one, or 0 if the old one
      would have been negative. */
  lemma LowAtOne(c: nat, size: nat)
    requires c <= U32_MAX
    ensures LowX(c, size, 1.0) == if c >= size / 2 then c - size / 2 else 0
  {
    var h := size / 2;
    var v := c as real - size as real * 1.0 / 2.0;
    if size % 2 == 0 {
      assert v == (c - h) as real;
      RoundOfInt(c - h);
    } else {
      assert v == (c - h) as real - 0.5;
      if c > h {
        assert v == (c - h - 1) as real + 0.5;
        RoundHalfAbove(c - h - 1);
      }
    }
  }

  /** At magnitude 1 the new far edge is one past the old one for an odd size
      (before the cap), because the half pixel rounds up. */
  lemma HighAtOne(c: nat, size: nat, max: nat)
    ensures High(c, size, 1.0, max) == Min(U32Sat(c + size - size / 2), max)
  {
    var h := size / 2;
    var v := c as real + size as real * 1.0 / 2.0;
    if size % 2 == 0 {
      assert v == (c + h) as real;
      RoundOfInt(c + h);
    } else {
      assert v == (c + h) as real + 0.5;
      RoundHalfAbove(c + h);
    }
  }

  /** Scaling by 1 with room to spare on both sides changes nothing. */
  lemma ScaleXByOne(r: Rect, max: nat)
    requires IsU32Rect(r) && r.x >= r.w / 2
    requires r.x + r.w - r.w / 2 <= max && r.x + r.w - r.w / 2 <= U32_MAX
    ensures LowX(r.x, r.w, 1.0) <= High(r.x, r.w, 1.0, max)
    ensures ScaleX(r, 1.0, max) == r
  {
    LowAtOne(r.x, r.w);
    HighAtOne(r.x, r.w, max);
  }

  // ---------------------------------------------------------------------
  // Conversion from the float rectangle

  /** `Into<Rect> for RectF32`: round each field to `u32`, then scale by 1
      capped at the rounded rectangle's own right and bottom edges. That last
      step pulls the left and top edges back to 0 when they would be negative
      and drops the odd pixel of an odd size. */
  function FromF32(f: FloatRect.RectF32): (s: Rect)
    ensures HasEdges(s) && IsU32Rect(s)
    ensures var r := Rect(RoundU32(f.x), RoundU32(f.y), RoundU32(f.w), RoundU32(f.h));
      Right(s) <= Right(r) && Bottom(s) <= Bottom(r)
  {
    var r := Rect(RoundU32(f.x), RoundU32(f.y), RoundU32(f.w), RoundU32(f.h));
    ScaleAtOneOrdered(r);
    ScaleStaysU32(r, 1.0, Right(r), Bottom(r));
    Scale(r, 1.0, Right(r), Bottom(r))
  }

  /** Scaling a `u32` rectangle by 1 within its own edges keeps each pair of
      new edges ordered. */
  lemma ScaleAtOneOrdered(r: Rect)
    requires IsU32Rect(r)
    ensures LowX(r.x, r.w, 1.0) <= High(r.x, r.w, 1.0, Right(r))
    ensures LowY(r.y, r.h, 1.0) <= High(r.y, r.h, 1.0, Bottom(r))
  {
    LowAtOne(r.x, r.w);
    HighAtOne(r.x, r.w, Right(r));
    LowAtOne(r.y, r.h);
    HighAtOne(r.y, r.h, Bottom(r));
    LowFormsAgree(r.y, r.h, 1.0);
  }

  /** Scaled edges are rounded to `u32`, so the scaled rectangle fits `u32`. */
  lemma ScaleStaysU32(r: Rect, mag: real, maxX: nat, maxY: nat)
    requires LowX(r.x, r.w, mag) <= High(r.x, r.w, mag, maxX)
    requires LowY(r.y, r.h, mag) <= High(r.y, r.h, mag, maxY)
    ensures IsU32Rect(Scale(r, mag, maxX, maxY))
  {
    var sx := ScaleX(r, mag, maxX);
    assert sx.x <= U32_MAX && sx.w <= U32_MAX;
    var s := ScaleY(sx, mag, maxY);
    assert s.y <= U32_MAX && s.h <= U32_MAX;
  }

  /** A float rectangle that rounds to one lying inside the `u32` range keeps
      its centre and loses only the odd pixel of each side. */
  lemma FromF32Interior(f: FloatRect.RectF32)
    requires var r := Rect(RoundU32(f.x), RoundU32(f.y), RoundU32(f.w), RoundU32(f.h));
      HasEdges(r) && r.x + r.w <= U32_MAX && r.y + r.h <= U32_MAX
    ensures var r := Rect(RoundU32(f.x), RoundU32(f.y), RoundU32(f.w), RoundU32(f.h));
      FromF32(f) == Rect(r.x, r.y, DownToEven(r.w), DownToEven(r.h))
  {
    var r := Rect(RoundU32(f.x), RoundU32(f.y), RoundU32(f.w), RoundU32(f.h));
    ScaleXAtOneInside(r);
    ScaleYAtOneInside(ScaleX(r, 1.0, Right(r)), Bottom(r));
  }

  /** Scaling by 1 within the rectangle's own right edge keeps the centre
      and drops the odd pixel of the width. */
  lemma ScaleXAtOneInside(r: Rect)
    requires r.x >= r.w / 2 && r.x + r.w <= U32_MAX
    ensures LowX(r.x, r.w, 1.0) <= High(r.x, r.w, 1.0, Right(r))
    ensures ScaleX(r, 1.0, Right(r)) == Rect(r.x, r.y, DownToEven(r.w), r.h)
  {
    LowAtOne(r.x, r.w);
    HighAtOne(r.x, r.w, Right(r));
  }

  /** The same for the height, within the bottom edge. */
  lemma ScaleYAtOneInside(r: Rect, bottom: nat)
    requires r.y >= r.h / 2 && r.y + r.h <= U32_MAX && bottom == Bottom(r)
    ensures LowY(r.y, r.h, 1.0) <= High(r.y, r.h, 1.0, bottom)
    ensures ScaleY(r, 1.0, bottom) == Rect(r.x, r.y, r.w, DownToEven(r.h))
  {
    LowAtOne(r.y, r.h);
    HighAtOne(r.y, r.h, bottom);
    LowFormsAgree(r.y, r.h, 1.0);
  }

  // ---------------------------------------------------------------------
  // Overlap

  function EdgeBox(r: Rect): Overlap.Box
    requires HasEdges(r)
  {
    Overlap.Box(Left(r), Right(r), Top(r), Bottom(r))
  }

  /** The area shared by the two rectangles' edge boxes. */
  function OverlapArea(a: Rect, b: Rect): nat
    requires HasEdges(a) && HasEdges(b)
  {
    Overlap.SharedArea(EdgeBox(a), EdgeBox(b))
  }

  /** The shared area is symmetric and fits inside each rectangle, whose
      edge box drops the odd pixel of each side. */
  lemma OverlapWithin(a: Rect, b: Rect)
    requires HasEdges(a) && HasEdges(b)
    ensures OverlapArea(a, b) == OverlapArea(b, a)
    ensures OverlapArea(a, b) <= Area(a) && OverlapArea(a, b) <= Area(b)
  {
    Overlap.SharedAreaFacts(EdgeBox(a), EdgeBox(b));
    Overlap.MulLe(a.w - a.w % 2, a.h - a.h % 2, a.w, a.h);
    Overlap.MulLe(b.w - b.w % 2, b.h - b.h % 2, b.w, b.h);
  }

  /** `overlap_pct`: the shared area as a percentage of the union's area,
      0 when the union is empty. It is 0 exactly when nothing is shared and
      100 exactly when both rectangles' areas equal the shared area. */
  function OverlapPct(a: Rect, b: Rect): (p: real)
    requires HasEdges(a) && HasEdges(b)
    ensures 0.0 <= p <= 100.0
    ensures p == 0.0 <==> OverlapArea(a, b) == 0
    ensures p == 100.0 <==>
      OverlapArea(a, b) > 0 && OverlapArea(a, b) == Area(a) && OverlapArea(a, b) == Area(b)
  {
    OverlapWithin(a, b);
    Overlap.Pct(OverlapArea(a, b), Area(a), Area(b))
  }

  /** The percentage does not depend on the order of the operands. */
  lemma OverlapPctSymmetric(a: Rect, b: Rect)
    requires HasEdges(a) && HasEdges(b)
    ensures OverlapPct(a, b) == OverlapPct(b, a)
  {
    OverlapWithin(a, b);
  }

  /** A rectangle with even, non-zero sides overlaps itself completely. */
  lemma SelfOverlapEven(a: Rect)
    requires HasEdges(a) && a.w > 0 && a.h > 0 && a.w % 2 == 0 && a.h % 2 == 0
    ensures OverlapPct(a, a) == 100.0
  {
    assert OverlapArea(a, a) == a.w * a.h;
  }

  /** Rectangles whose edge boxes are apart on either axis do not overlap. */
  lemma DisjointNoOverlap(a: Rect, b: Rect)
    requires HasEdges(a) && HasEdges(b)
    requires Right(a) <= Left(b) || Right(b) <= Left(a) || Bottom(a) <= Top(b) || Bottom(b) <= Top(a)
    ensures OverlapPct(a, b) == 0.0
  {
    Overlap.SeparatedShareNothing(EdgeBox(a), EdgeBox(b));
  }
}
