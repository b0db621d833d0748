/** The shapes of the earlier code generation: src/shapes/polygon.rs,
    src/shapes/npoint.rs and src/shapes/shape.rs. `Polygon` and `NPoint` are
    both a bare point list kept verbatim by their constructors, and both
    convert to their bounding `SatRect.Rect` by the same folds. */
module OldShape {

  import opened ImgGeom
  import ImgPolygon
  import SatRect

  /** `Shape`: a rectangle or a point list. */
  datatype Shape = RectShape(rect: SatRect.Rect) | NPoint(poly: Polygon)

  /** `Polygon::new`: the points verbatim, in order. */
  function NewPolygon(points: seq<Point>): (p: Polygon)
    ensures p.points == points
  {
    Polygon(points)
  }

  /** `From<Polygon> for Rect` and `From<NPoint> for Rect`: the bounding box
      through `Rect::from_tl(min_x, min_y, max_x - min_x, max_y - min_y)`. */
  function BoundingRect(p: Polygon): (r: SatRect.Rect)
    requires |p.points| > 0
    ensures SatRect.Left(r) == ImgPolygon.MinX(p) && SatRect.Top(r) == ImgPolygon.MinY(p)
    ensures r.w == ImgPolygon.MaxX(p) - ImgPolygon.MinX(p)
    ensures r.h == ImgPolygon.MaxY(p) - ImgPolygon.MinY(p)
  {
    ImgPolygon.ExtremesAreTight(p);
    SatRect.FromTl(ImgPolygon.MinX(p), ImgPolygon.MinY(p),
                   ImgPolygon.MaxX(p) - ImgPolygon.MinX(p), ImgPolygon.MaxY(p) - ImgPolygon.MinY(p))
  }

  /** Every point lies in [left, left + w] by [top, top + h]; `right()` and
      `bottom()` fall one short of the maximum when the side is odd. */
  lemma BoundingRectContains(p: Polygon)
    requires |p.points| > 0
    ensures var r := BoundingRect(p);
      (forall i :: 0 <= i < |p.points| ==>
        SatRect.Left(r) <= p.points[i].x <= SatRect.Left(r) + r.w &&
        SatRect.Top(r) <= p.points[i].y <= SatRect.Top(r) + r.h) &&
      SatRect.Right(r) == ImgPolygon.MaxX(p) - r.w % 2 &&
      SatRect.Bottom(r) == ImgPolygon.MaxY(p) - r.h % 2
  {
    ImgPolygon.ExtremesAreTight(p);
  }

  /** `From<Shape> for Rect`: a rectangle as is, a point list by its
      bounding box. */
  function ToRect(s: Shape): (r: SatRect.Rect)
    requires s.NPoint? ==> |s.poly.points| > 0
    ensures s.RectShape? ==> r == s.rect
    ensures s.NPoint? ==> r == BoundingRect(s.poly)
  {
    match s
    case RectShape(r) => r
    case NPoint(p) => BoundingRect(p)
  }

  /** `From<Rect> for Shape` and `From<NPoint> for Shape` wrap their argument. */
  function FromRect(r: SatRect.Rect): Shape {
    RectShape(r)
  }

  function FromNPoint(p: Polygon): Shape {
    NPoint(p)
  }

  /** A rectangle survives the trip through `Shape` unchanged. */
  lemma RectRoundTrip(r: SatRect.Rect)
    ensures ToRect(FromRect(r)) == r
  {
  }

  /** A point list's trip through `Shape` gives its bounding box. */
  lemma NPointToRect(p: Polygon)
    requires |p.points| > 0
    ensures FromNPoint(p).NPoint? && ToRect(FromNPoint(p)) == BoundingRect(p)
  {
  }
}
