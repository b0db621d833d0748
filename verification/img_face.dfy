/** A detected face as eymo-img/src/pipeline.rs hands it to the
    interpreter: one polygon per landmark feature and the bounding
    rectangle the landmarks were read from. */
module ImgFace {

  import opened ImgGeom
  import ImgRect

  datatype Face = Face(
    face: Polygon,
    mouth: Polygon,
    nose: Polygon,
    lEye: Polygon,
    lEyeRegion: Polygon,
    rEye: Polygon,
    rEyeRegion: Polygon,
    bound: ImgRect.Rect)

  /** `Detection`: the faces of one frame, in detector order. */
  type Detection = seq<Face>
}
