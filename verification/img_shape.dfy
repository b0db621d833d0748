/** The shape a `ShapeOp` reads from or writes to in eymo-img: a rectangle
    or a polygon. eymo-img/src/shapes/shape.rs is not part of this model;
    the two variants are the two types its `Into<Shape>` conversions are
    applied to (eymo-img/src/lang.rs and eymo-img/src/transform.rs). */
module ImgShape {

  import opened ImgGeom
  import ImgRect

  datatype Shape = RectShape(rect: ImgRect.Rect) | PolyShape(poly: Polygon)
}
