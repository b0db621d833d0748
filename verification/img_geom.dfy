/** The pixel point and point-list types of eymo-img. The point type's own file
    (eymo-img/src/shapes/point.rs) is not part of this model; only its two
    `u32` fields are used. `Polygon::new` (eymo-img/src/shapes/polygon.rs)
    keeps its points verbatim, so a polygon is its point list. */
module ImgGeom {

  datatype Point = Point(x: nat, y: nat)

  datatype Polygon = Polygon(points: seq<Point>)
}
