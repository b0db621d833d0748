/** eymo-img/src/shapes/polygon.rs: extremes, centre and stretching of a
    point list, and its bounding rectangle. */
module ImgPolygon {

  import opened Num
  import opened ImgGeom
  import opened ImgUtil
  import ImgRect

  /** A polygon the source can measure: at least one point (the extremes
      start their folds at `points[0]`) and every coordinate a `u32`. */
  predicate Valid(p: Polygon) {
    |p.points| > 0 &&
    forall i :: 0 <= i < |p.points| ==> p.points[i].x <= U32_MAX && p.points[i].y <= U32_MAX
  }

  function Xs(ps: seq<Point>): (xs: seq<nat>)
    ensures |xs| == |ps| && forall i :: 0 <= i < |ps| ==> xs[i] == ps[i].x
  {
    if |ps| == 0 then [] else [ps[0].x] + Xs(ps[1..])
  }

  function Ys(ps: seq<Point>): (ys: seq<nat>)
    ensures |ys| == |ps| && forall i :: 0 <= i < |ps| ==> ys[i] == ps[i].y
  {
    if |ps| == 0 then [] else [ps[0].y] + Ys(ps[1..])
  }

  /** The iterator fold `s.fold(acc, |m, v| m.min(v))`: the least of `acc`
      and the elements, and one of them. */
  function FoldMin(acc: nat, s: seq<nat>): (m: nat)
    ensures m <= acc && forall i :: 0 <= i < |s| ==> m <= s[i]
    ensures m == acc || exists i :: 0 <= i < |s| && m == s[i]
    decreases |s|
  {
    if |s| == 0 then acc
    else
      var m := FoldMin(if s[0] < acc then s[0] else acc, s[1..]);
      assert m == (if s[0] < acc then s[0] else acc) || exists i :: 0 <= i < |s[1..]| && m == s[1..][i];
      m
  }

  /** The fold with `max`: the greatest of `acc` and the elements. */
  function FoldMax(acc: nat, s: seq<nat>): (m: nat)
    ensures m >= acc && forall i :: 0 <= i < |s| ==> m >= s[i]
    ensures m == acc || exists i :: 0 <= i < |s| && m == s[i]
    decreases |s|
  {
    if |s| == 0 then acc
    else
      var m := FoldMax(if s[0] > acc then s[0] else acc, s[1..]);
      assert m == (if s[0] > acc then s[0] else acc) || exists i :: 0 <= i < |s[1..]| && m == s[1..][i];
      m
  }

  function MinX(p: Polygon): nat
    requires |p.points| > 0
  {
    FoldMin(p.points[0].x, Xs(p.points))
  }

  function MaxX(p: Polygon): nat
    requires |p.points| > 0
  {
    FoldMax(p.points[0].x, Xs(p.points))
  }

  function MinY(p: Polygon): nat
    requires |p.points| > 0
  {
    FoldMin(p.points[0].y, Ys(p.points))
  }

  function MaxY(p: Polygon): nat
    requires |p.points| > 0
  {
    FoldMax(p.points[0].y, Ys(p.points))
  }

  /** `min_x`, `max_x`, `min_y`, `max_y` are the extremes of the points: every
      point lies inside them, and each is attained by some point. */
  lemma ExtremesAreTight(p: Polygon)
    requires |p.points| > 0
    ensures forall i :: 0 <= i < |p.points| ==>
      MinX(p) <= p.points[i].x <= MaxX(p) && MinY(p) <= p.points[i].y <= MaxY(p)
    ensures exists i :: 0 <= i < |p.points| && p.points[i].x == MinX(p)
    ensures exists i :: 0 <= i < |p.points| && p.points[i].x == MaxX(p)
    ensures exists i :: 0 <= i < |p.points| && p.points[i].y == MinY(p)
    ensures exists i :: 0 <= i < |p.points| && p.points[i].y == MaxY(p)
  {
    var xs := Xs(p.points);
    var ys := Ys(p.points);
    assert xs[0] == p.points[0].x && ys[0] == p.points[0].y;
    assert forall i :: 0 <= i < |p.points| ==> xs[i] == p.points[i].x;
  }

  /** A valid polygon's extremes are `u32` values. */
  lemma ExtremesInRange(p: Polygon)
    requires Valid(p)
    ensures MaxX(p) <= U32_MAX && MaxY(p) <= U32_MAX
  {
    FoldMaxBelow(p.points[0].x, Xs(p.points), U32_MAX);
    FoldMaxBelow(p.points[0].y, Ys(p.points), U32_MAX);
  }

  /** `center()`: the middle of the bounding box, each half-span rounded to
      the nearest pixel. */
  function Center(p: Polygon): (c: Point)
    requires Valid(p)
    ensures MinX(p) <= c.x <= MaxX(p) && MinY(p) <= c.y <= MaxY(p)
  {
    ExtremesAreTight(p);
    var minX := MinX(p);
    var maxX := MaxX(p);
    var minY := MinY(p);
    var maxY := MaxY(p);
    HalfSpan(maxX - minX);
    HalfSpan(maxY - minY);
    Point(minX + RoundedDiv(maxX - minX, 2), minY + RoundedDiv(maxY - minY, 2))
  }

  /** Half a `u32` span, rounded half up, never exceeds the span. */
  lemma HalfSpan(d: nat)
    requires d <= U32_MAX
    ensures RoundedDiv(d, 2) == (d + 1) / 2 <= d
  {
    assert (2 * d + 2) / 4 == (d + 1) / 2;
  }

  /** `From<Polygon> for Rect`: the bounding box, through `Rect::from_tl`. */
  function ToRect(p: Polygon): (r: ImgRect.Rect)
    requires |p.points| > 0
    ensures ImgRect.HasEdges(r)
    ensures ImgRect.Left(r) == MinX(p) && ImgRect.Top(r) == MinY(p)
    ensures r.w == MaxX(p) - MinX(p) && r.h == MaxY(p) - MinY(p)
  {
    ExtremesAreTight(p);
    ImgRect.FromTl(MinX(p), MinY(p), MaxX(p) - MinX(p), MaxY(p) - MinY(p))
  }

  /** Every point of the polygon lies in its bounding rectangle, counting the
      odd pixel the centre-based rectangle cannot hold. */
  lemma ToRectBounds(p: Polygon)
    requires |p.points| > 0
    ensures var r := ToRect(p);
      forall i :: 0 <= i < |p.points| ==>
        ImgRect.Left(r) <= p.points[i].x <= ImgRect.Right(r) + r.w % 2 &&
        ImgRect.Top(r) <= p.points[i].y <= ImgRect.Bottom(r) + r.h % 2
  {
    ExtremesAreTight(p);
  }

  /** Turning a rectangle into its corner polygon and back keeps the centre
      and rounds each side down to even. */
  lemma RectRoundTrip(r: ImgRect.Rect)
    requires ImgRect.HasEdges(r)
    ensures ToRect(ImgRect.ToPolygon(r)) == ImgRect.Rect(r.x, r.y, DownToEven(r.w), DownToEven(r.h))
  {
    var p := ImgRect.ToPolygon(r);
    CornerExtremes(r);
  }

  /** The extremes of the corner polygon are the rectangle's edges. */
  lemma CornerExtremes(r: ImgRect.Rect)
    requires ImgRect.HasEdges(r)
    ensures var p := ImgRect.ToPolygon(r);
      MinX(p) == ImgRect.Left(r) && MaxX(p) == ImgRect.Right(r) &&
      MinY(p) == ImgRect.Top(r) && MaxY(p) == ImgRect.Bottom(r)
  {
    CornerXExtremes(r);
    CornerYExtremes(r);
  }

  lemma CornerXExtremes(r: ImgRect.Rect)
    requires ImgRect.HasEdges(r)
    ensures var p := ImgRect.ToPolygon(r);
      MinX(p) == ImgRect.Left(r) && MaxX(p) == ImgRect.Right(r)
  {
    var l, rt := ImgRect.Left(r), ImgRect.Right(r);
    CornerCoordinates(r);
    FoldsBetween([l, rt, rt, l], l, rt, 1);
  }

  lemma CornerYExtremes(r: ImgRect.Rect)
    requires ImgRect.HasEdges(r)
    ensures var p := ImgRect.ToPolygon(r);
      MinY(p) == ImgRect.Top(r) && MaxY(p) == ImgRect.Bottom(r)
  {
    var t, b := ImgRect.Top(r), ImgRect.Bottom(r);
    CornerCoordinates(r);
    FoldsBetween([t, t, b, b], t, b, 2);
  }

  /** The corners' coordinates, in polygon order. */
  lemma CornerCoordinates(r: ImgRect.Rect)
    requires ImgRect.HasEdges(r)
    ensures var p := ImgRect.ToPolygon(r);
      Xs(p.points) == [ImgRect.Left(r), ImgRect.Right(r), ImgRect.Right(r), ImgRect.Left(r)] &&
      Ys(p.points) == [ImgRect.Top(r), ImgRect.Top(r), ImgRect.Bottom(r), ImgRect.Bottom(r)]
  {
    var p := ImgRect.ToPolygon(r);
    var xs, ys := Xs(p.points), Ys(p.points);
    assert xs[0] == ImgRect.Left(r) && xs[1] == ImgRect.Right(r) && xs[2] == ImgRect.Right(r) && xs[3] == ImgRect.Left(r);
    assert ys[0] == ImgRect.Top(r) && ys[1] == ImgRect.Top(r) && ys[2] == ImgRect.Bottom(r) && ys[3] == ImgRect.Bottom(r);
  }

  /** Folds started at the least element `lo` of a list whose elements lie
      in `[lo, hi]` and reach `hi` at position `k` give `lo` and `hi`. */
  lemma FoldsBetween(s: seq<nat>, lo: nat, hi: nat, k: nat)
    requires k < |s| && s[k] == hi && lo <= hi
    requires forall i :: 0 <= i < |s| ==> lo <= s[i] <= hi
    ensures FoldMin(lo, s) == lo && FoldMax(lo, s) == hi
  {
    FoldMinAbove(lo, s, lo);
    FoldMaxBelow(lo, s, hi);
  }

  lemma FoldMinAbove(acc: nat, s: seq<nat>, b: nat)
    requires b <= acc && forall i :: 0 <= i < |s| ==> b <= s[i]
    ensures b <= FoldMin(acc, s)
  {
  }

  lemma FoldMaxBelow(acc: nat, s: seq<nat>, b: nat)
    requires acc <= b && forall i :: 0 <= i < |s| ==> s[i] <= b
    ensures FoldMax(acc, s) <= b
  {
  }

  /** The corner polygon of a `u32` rectangle has the rectangle's centre. */
  lemma RectCenterAgrees(r: ImgRect.Rect)
    requires ImgRect.HasEdges(r) && ImgRect.Right(r) <= U32_MAX && ImgRect.Bottom(r) <= U32_MAX
    ensures Valid(ImgRect.ToPolygon(r))
    ensures Center(ImgRect.ToPolygon(r)) == ImgRect.Center(r)
  {
    var p := ImgRect.ToPolygon(r);
    CornerExtremes(r);
    HalfSpan(MaxX(p) - MinX(p));
    HalfSpan(MaxY(p) - MinY(p));
  }

  // ---------------------------------------------------------------------
  // Stretching

  /** One coordinate of `stretch`: a value below the centre moves by
      `mult(distance, near)`, then a value above the centre moves by
      `mult(distance, far)`. The first move never lands above the centre,
      so each value moves at most once, and never crosses the centre. */
  function StretchCoord(v: nat, c: nat, near: real, far: real): (r: nat)
    requires v < c ==> Mult(c - v, near) <= c
    ensures v < c ==> r <= c && c - r == Mult(c - v, near)
    ensures v > c ==> r >= c && r - c == Mult(v - c, far)
    ensures v == c ==> r == c
  {
    var v1 := if v < c then c - Mult(c - v, near) else v;
    if v1 > c then c + Mult(v1 - c, far) else v1
  }

  /** The source subtracts in `u32`: a point left of (above) the centre `c`
      must not be pushed past 0. */
  predicate CanStretchAbout(ps: seq<Point>, c: Point, mags: seq<real>)
    requires |mags| == 4
  {
    forall i :: 0 <= i < |ps| ==>
      (ps[i].x < c.x ==> Mult(c.x - ps[i].x, mags[0]) <= c.x) &&
      (ps[i].y < c.y ==> Mult(c.y - ps[i].y, mags[2]) <= c.y)
  }

  predicate CanStretch(p: Polygon, mags: seq<real>)
    requires Valid(p) && |mags| == 4
  {
    CanStretchAbout(p.points, Center(p), mags)
  }

  function StretchPoint(q: Point, c: Point, mags: seq<real>): (r: Point)
    requires |mags| == 4
    requires q.x < c.x ==> Mult(c.x - q.x, mags[0]) <= c.x
    requires q.y < c.y ==> Mult(c.y - q.y, mags[2]) <= c.y
    ensures (q.x <= c.x ==> r.x <= c.x) && (q.x >= c.x ==> r.x >= c.x)
    ensures (q.y <= c.y ==> r.y <= c.y) && (q.y >= c.y ==> r.y >= c.y)
  {
    Point(StretchCoord(q.x, c.x, mags[0], mags[1]), StretchCoord(q.y, c.y, mags[2], mags[3]))
  }

  function StretchAbout(ps: seq<Point>, c: Point, mags: seq<real>): (qs: seq<Point>)
    requires |mags| == 4 && CanStretchAbout(ps, c, mags)
    ensures |qs| == |ps|
    ensures forall i :: 0 <= i < |ps| ==> qs[i] == StretchPoint(ps[i], c, mags)
  {
    seq(|ps|, i requires 0 <= i < |ps| => StretchPoint(ps[i], c, mags))
  }

  /** `stretch([dxl, dxr, dyt, dyb])`: every point's distance from the centre
      is scaled by the factor for its side; points keep their order and never
      cross the centre (a factor of 0 puts them on it). */
  function Stretch(p: Polygon, mags: seq<real>): (s: Polygon)
    requires Valid(p) && |mags| == 4 && CanStretch(p, mags)
    ensures |s.points| == |p.points|
    ensures forall i :: 0 <= i < |p.points| ==>
      (p.points[i].x <= Center(p).x ==> s.points[i].x <= Center(p).x) &&
      (p.points[i].x >= Center(p).x ==> s.points[i].x >= Center(p).x) &&
      (p.points[i].y <= Center(p).y ==> s.points[i].y <= Center(p).y) &&
      (p.points[i].y >= Center(p).y ==> s.points[i].y >= Center(p).y)
  {
    Polygon(StretchAbout(p.points, Center(p), mags))
  }

  lemma StretchCoordByOne(v: nat, c: nat)
    requires v <= U32_MAX && c <= U32_MAX
    ensures v < c ==> Mult(c - v, 1.0) <= c
    ensures StretchCoord(v, c, 1.0, 1.0) == v
  {
    if v < c { MultByOne(c - v); }
    if v > c { MultByOne(v - c); }
  }

  lemma StretchAboutByOne(ps: seq<Point>, c: Point)
    requires forall i :: 0 <= i < |ps| ==> ps[i].x <= U32_MAX && ps[i].y <= U32_MAX
    requires c.x <= U32_MAX && c.y <= U32_MAX
    ensures CanStretchAbout(ps, c, [1.0, 1.0, 1.0, 1.0])
    ensures StretchAbout(ps, c, [1.0, 1.0, 1.0, 1.0]) == ps
  {
    var ones := [1.0, 1.0, 1.0, 1.0];
    forall i | 0 <= i < |ps|
      ensures (ps[i].x < c.x ==> Mult(c.x - ps[i].x, ones[0]) <= c.x)
      ensures (ps[i].y < c.y ==> Mult(c.y - ps[i].y, ones[2]) <= c.y)
      ensures StretchCoord(ps[i].x, c.x, 1.0, 1.0) == ps[i].x
      ensures StretchCoord(ps[i].y, c.y, 1.0, 1.0) == ps[i].y
    {
      StretchCoordByOne(ps[i].x, c.x);
      StretchCoordByOne(ps[i].y, c.y);
    }
    var qs := StretchAbout(ps, c, ones);
    assert forall i :: 0 <= i < |ps| ==> qs[i] == ps[i];
  }

  /** Stretching by 1 on every side leaves the polygon unchanged. */
  lemma StretchByOne(p: Polygon)
    requires Valid(p)
    ensures CanStretch(p, [1.0, 1.0, 1.0, 1.0])
    ensures Stretch(p, [1.0, 1.0, 1.0, 1.0]) == p
  {
    ExtremesInRange(p);
    StretchAboutByOne(p.points, Center(p));
  }

  /** Stretching by 0 on every side collapses every point onto the centre. */
  lemma StretchByZero(p: Polygon)
    requires Valid(p)
    ensures CanStretch(p, [0.0, 0.0, 0.0, 0.0])
    ensures forall i :: 0 <= i < |p.points| ==>
      Stretch(p, [0.0, 0.0, 0.0, 0.0]).points[i] == Center(p)
  {
    var c := Center(p);
    forall d: nat
      ensures Mult(d, 0.0) == 0
    {
      assert (d as real) * 0.0 == 0.0;
      RoundOfInt(0);
    }
  }
}
