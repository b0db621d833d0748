/** eymo-img/src/pipeline/landmarks.rs without the model run: the landmark
    index tables, the quad that crops the face out of the frame, and the
    reading of the landmark mesh back into feature polygons.

    The mesh is the model's flat output, three floats (x, y, z) per
    landmark, in the 192 x 192 crop's coordinates. `Point::rotate` is
    trigonometry in eymo-img/src/shapes/point.rs, which is not part of this
    model, so it is a parameter. */
module Landmarks {

  import opened Num
  import opened ImgGeom
  import opened ImgFace
  import ImgRect
  import V = Vertices

  /** The crop the landmark model reads. */
  const WIDTH: nat := 192
  const HEIGHT: nat := 192

  const FACE_IDXS: seq<nat> := [
    10, 109, 67, 103, 54, 21, 162, 127, 234, 93, 132, 58, 172, 136, 150, 149, 176, 148, 152, 377,
    400, 378, 379, 365, 397, 288, 435, 361, 323, 454, 356, 389, 251, 284, 332, 297, 338]

  const MOUTH_IDXS: seq<nat> := [
    164, 167, 165, 216, 212, 202, 204, 194, 201, 200, 421, 418, 424, 422, 432, 436, 322, 391, 393]

  const L_EYE_IDXS: seq<nat> := [
    133, 173, 157, 158, 159, 160, 161, 246, 33, 7, 163, 144, 145, 153, 154, 155]

  const L_EYE_REGION_IDXS: seq<nat> := [
    107, 66, 105, 63, 70, 156, 35, 31, 228, 229, 230, 231, 232, 233, 245, 193, 55]

  const R_EYE_IDXS: seq<nat> := [
    263, 466, 388, 387, 386, 385, 384, 398, 362, 382, 381, 380, 374, 373, 390, 249]

  const R_EYE_REGION_IDXS: seq<nat> := [
    300, 293, 334, 296, 336, 285, 417, 465, 453, 452, 451, 450, 449, 448, 261, 265, 353]

  const NOSE_IDXS: seq<nat> := [
    168, 193, 245, 188, 174, 236, 198, 209, 49, 64, 98, 97, 2, 326, 327, 294, 279, 429, 420, 456,
    419, 351, 417]

  /** The largest landmark number any table uses. */
  const MAX_IDX: nat := 466

  predicate Bounded(idxs: seq<nat>) {
    forall i :: 0 <= i < |idxs| ==> idxs[i] <= MAX_IDX
  }

  /** The tables' sizes, and every entry is at most `MAX_IDX`, so a mesh of
      more than `3 * MAX_IDX + 1` floats serves them all. */
  lemma TablesFit()
    ensures |FACE_IDXS| == 37 && |NOSE_IDXS| == 23 && |MOUTH_IDXS| == 19
    ensures |L_EYE_IDXS| == 16 && |R_EYE_IDXS| == 16
    ensures |L_EYE_REGION_IDXS| == 17 && |R_EYE_REGION_IDXS| == 17
    ensures Bounded(FACE_IDXS) && Bounded(NOSE_IDXS) && Bounded(MOUTH_IDXS)
    ensures Bounded(L_EYE_IDXS) && Bounded(R_EYE_IDXS)
    ensures Bounded(L_EYE_REGION_IDXS) && Bounded(R_EYE_REGION_IDXS)
  {
    FaceTableFits();
    NoseTableFits();
    MouthTableFits();
    LeftEyeTableFits();
    RightEyeTableFits();
    LeftEyeRegionTableFits();
    RightEyeRegionTableFits();
  }

  lemma FaceTableFits()
    ensures |FACE_IDXS| == 37 && Bounded(FACE_IDXS)
  {
  }

  lemma NoseTableFits()
    ensures |NOSE_IDXS| == 23 && Bounded(NOSE_IDXS)
  {
  }

  lemma MouthTableFits()
    ensures |MOUTH_IDXS| == 19 && Bounded(MOUTH_IDXS)
  {
  }

  lemma LeftEyeTableFits()
    ensures |L_EYE_IDXS| == 16 && Bounded(L_EYE_IDXS)
  {
  }

  lemma RightEyeTableFits()
    ensures |R_EYE_IDXS| == 16 && Bounded(R_EYE_IDXS)
  {
  }

  lemma LeftEyeRegionTableFits()
    ensures |L_EYE_REGION_IDXS| == 17 && Bounded(L_EYE_REGION_IDXS)
  {
  }

  lemma RightEyeRegionTableFits()
    ensures |R_EYE_REGION_IDXS| == 17 && Bounded(R_EYE_REGION_IDXS)
  {
  }

  /** The mesh holds the x and y of every landmark in `idxs`. */
  predicate Covers(mesh: seq<real>, idxs: seq<nat>) {
    forall i :: 0 <= i < |idxs| ==> 3 * idxs[i] + 1 < |mesh|
  }

  /** The mesh holds every landmark any table names. */
  predicate CoversTables(mesh: seq<real>) {
    Covers(mesh, FACE_IDXS) && Covers(mesh, NOSE_IDXS) && Covers(mesh, MOUTH_IDXS) &&
    Covers(mesh, L_EYE_IDXS) && Covers(mesh, R_EYE_IDXS) &&
    Covers(mesh, L_EYE_REGION_IDXS) && Covers(mesh, R_EYE_REGION_IDXS)
  }

  /** A mesh of more than `3 * MAX_IDX + 1` floats (the model's 468
      landmarks give 1404) holds every landmark any table names. */
  lemma LongMeshCoversTables(mesh: seq<real>)
    requires |mesh| > 3 * MAX_IDX + 1
    ensures CoversTables(mesh)
  {
    TablesFit();
  }

  /** How a landmark's crop coordinates map back into the frame. */
  datatype Placement = Placement(xOffset: real, yOffset: real, xScale: real, yScale: real,
                                 origin: Point, rotation: real)

  /** Landmark `n`, scaled and offset into the frame and rounded to `u32`,
      before rotation. */
  function MeshPoint(mesh: seq<real>, n: nat, pl: Placement): (p: Point)
    requires 3 * n + 1 < |mesh|
    ensures p.x == RoundU32(Place(pl.xOffset, mesh[3 * n], pl.xScale))
    ensures p.y == RoundU32(Place(pl.yOffset, mesh[3 * n + 1], pl.yScale))
  {
    Point(RoundU32(Place(pl.xOffset, mesh[3 * n], pl.xScale)), RoundU32(Place(pl.yOffset, mesh[3 * n + 1], pl.yScale)))
  }

  /** A crop coordinate scaled and offset into the frame. */
  function Place(offset: real, v: real, scale: real): real {
    offset + v * scale
  }

  /** A landmark's point depends only on its x and y in the mesh. */
  lemma MeshPointLocal(m1: seq<real>, m2: seq<real>, n: nat, pl: Placement)
    requires 3 * n + 1 < |m1| && 3 * n + 1 < |m2|
    requires m1[3 * n] == m2[3 * n] && m1[3 * n + 1] == m2[3 * n + 1]
    ensures MeshPoint(m1, n, pl) == MeshPoint(m2, n, pl)
  {
  }

  /** `extract_feature`: one point per table entry, in table order, each
      rotated about the origin. */
  function ExtractFeature(mesh: seq<real>, idxs: seq<nat>, pl: Placement,
                          rotate: (Point, Point, real) -> Point): (poly: Polygon)
    requires Covers(mesh, idxs)
    ensures |poly.points| == |idxs|
    ensures forall i :: 0 <= i < |idxs| ==>
      poly.points[i] == rotate(MeshPoint(mesh, idxs[i], pl), pl.origin, pl.rotation)
    decreases |idxs|
  {
    if |idxs| == 0 then Polygon([])
    else
      var init := ExtractFeature(mesh, idxs[..|idxs| - 1], pl, rotate);
      Polygon(init.points + [rotate(MeshPoint(mesh, idxs[|idxs| - 1], pl), pl.origin, pl.rotation)])
  }

  /** Reading two tables one after the other is reading their
      concatenation. */
  lemma FeatureAppend(mesh: seq<real>, a: seq<nat>, b: seq<nat>, pl: Placement,
                      rotate: (Point, Point, real) -> Point)
    requires Covers(mesh, a) && Covers(mesh, b)
    ensures Covers(mesh, a + b)
    ensures ExtractFeature(mesh, a + b, pl, rotate).points ==
      ExtractFeature(mesh, a, pl, rotate).points + ExtractFeature(mesh, b, pl, rotate).points
  {
    assert forall i :: 0 <= i < |a + b| ==> (a + b)[i] == if i < |a| then a[i] else b[i - |a|];
  }

  /** Only the x and y of the named landmarks are read: two meshes that
      agree on them give the same polygon, whatever their z values and
      other landmarks. */
  lemma FeatureReadsOnlyItsLandmarks(m1: seq<real>, m2: seq<real>, idxs: seq<nat>, pl: Placement,
                                     rotate: (Point, Point, real) -> Point)
    requires Covers(m1, idxs) && Covers(m2, idxs)
    requires forall i :: 0 <= i < |idxs| ==>
      m1[3 * idxs[i]] == m2[3 * idxs[i]] && m1[3 * idxs[i] + 1] == m2[3 * idxs[i] + 1]
    ensures ExtractFeature(m1, idxs, pl, rotate) == ExtractFeature(m2, idxs, pl, rotate)
  {
    var p1, p2 := ExtractFeature(m1, idxs, pl, rotate), ExtractFeature(m2, idxs, pl, rotate);
    forall i | 0 <= i < |idxs|
      ensures p1.points[i] == p2.points[i]
    {
      MeshPointLocal(m1, m2, idxs[i], pl);
    }
    assert p1.points == p2.points;
  }

  /** `extract_results`: the scales are the run rectangle's size over the
      model's input size, the offsets its top-left corner, the rotation
      origin its centre, and each feature is read from its own table. The
      source returns `Ok` unconditionally. */
  function ExtractResults(r: seq<real>, inputWidth: nat, inputHeight: nat, runBounds: ImgRect.Rect,
                          runRot: real, rotate: (Point, Point, real) -> Point): (f: Face)
    requires CoversTables(r)
    requires inputWidth > 0 && inputHeight > 0 && ImgRect.HasEdges(runBounds)
    ensures f.bound == runBounds
    ensures |f.face.points| == 37 && |f.nose.points| == 23 && |f.mouth.points| == 19
    ensures |f.lEye.points| == 16 && |f.rEye.points| == 16
    ensures |f.lEyeRegion.points| == 17 && |f.rEyeRegion.points| == 17
    ensures var pl := RunPlacement(inputWidth, inputHeight, runBounds, runRot);
      f.face == ExtractFeature(r, FACE_IDXS, pl, rotate) &&
      f.nose == ExtractFeature(r, NOSE_IDXS, pl, rotate) &&
      f.mouth == ExtractFeature(r, MOUTH_IDXS, pl, rotate) &&
      f.lEye == ExtractFeature(r, L_EYE_IDXS, pl, rotate) &&
      f.lEyeRegion == ExtractFeature(r, L_EYE_REGION_IDXS, pl, rotate) &&
      f.rEye == ExtractFeature(r, R_EYE_IDXS, pl, rotate) &&
      f.rEyeRegion == ExtractFeature(r, R_EYE_REGION_IDXS, pl, rotate)
  {
    var pl := RunPlacement(inputWidth, inputHeight, runBounds, runRot);
    Face(
      face := ExtractFeature(r, FACE_IDXS, pl, rotate),
      mouth := ExtractFeature(r, MOUTH_IDXS, pl, rotate),
      nose := ExtractFeature(r, NOSE_IDXS, pl, rotate),
      lEye := ExtractFeature(r, L_EYE_IDXS, pl, rotate),
      lEyeRegion := ExtractFeature(r, L_EYE_REGION_IDXS, pl, rotate),
      rEye := ExtractFeature(r, R_EYE_IDXS, pl, rotate),
      rEyeRegion := ExtractFeature(r, R_EYE_REGION_IDXS, pl, rotate),
      bound := runBounds)
  }

  /** The placement `extract_results` computes from the run rectangle. */
  function RunPlacement(inputWidth: nat, inputHeight: nat, runBounds: ImgRect.Rect, runRot: real): (pl: Placement)
    requires inputWidth > 0 && inputHeight > 0 && ImgRect.HasEdges(runBounds)
    ensures pl.xScale * (inputWidth as real) == runBounds.w as real
    ensures pl.yScale * (inputHeight as real) == runBounds.h as real
    ensures pl.xOffset == ImgRect.Left(runBounds) as real && pl.yOffset == ImgRect.Top(runBounds) as real
    ensures pl.origin == ImgRect.Center(runBounds) && pl.rotation == runRot
  {
    var w, h := runBounds.w as real, runBounds.h as real;
    var iw, ih := inputWidth as real, inputHeight as real;
    var xs, ys := w / iw, h / ih;
    DivTimes(w, iw);
    DivTimes(h, ih);
    Placement(ImgRect.Left(runBounds) as real, ImgRect.Top(runBounds) as real, xs, ys,
              ImgRect.Center(runBounds), runRot)
  }

  lemma DivTimes(a: real, b: real)
    requires b != 0.0
    ensures (a / b) * b == a
  {
  }

  /** A landmark at the crop's top-left corner lands on the run rectangle's
      top-left corner, and one at the crop's far corner on the rectangle's
      left plus its width (and likewise vertically): the crop is stretched
      back over the rectangle it was cut from. */
  lemma PlacementMapsCropOntoBounds(inputWidth: nat, inputHeight: nat, runBounds: ImgRect.Rect, runRot: real)
    requires inputWidth > 0 && inputHeight > 0 && ImgRect.HasEdges(runBounds)
    ensures var pl := RunPlacement(inputWidth, inputHeight, runBounds, runRot);
      pl.xOffset + 0.0 * pl.xScale == ImgRect.Left(runBounds) as real &&
      pl.yOffset + 0.0 * pl.yScale == ImgRect.Top(runBounds) as real &&
      pl.xOffset + (inputWidth as real) * pl.xScale == (ImgRect.Left(runBounds) + runBounds.w) as real &&
      pl.yOffset + (inputHeight as real) * pl.yScale == (ImgRect.Top(runBounds) + runBounds.h) as real
  {
    var pl := RunPlacement(inputWidth, inputHeight, runBounds, runRot);
    assert (inputWidth as real) * pl.xScale == pl.xScale * (inputWidth as real);
    assert (inputHeight as real) * pl.yScale == pl.yScale * (inputHeight as real);
  }

  // ---------------------------------------------------------------------
  // The crop quad

  /** The six vertices `run_gpu` draws to crop the face: two triangles over
      the whole clip square, sampling the frame between the bound's edges
      (texture coordinates are fractions of the frame's size). */
  function CropQuad(bounds: ImgRect.Rect, texWidth: nat, texHeight: nat): (vs: seq<V.Vertex>)
    requires ImgRect.HasEdges(bounds) && texWidth > 0 && texHeight > 0
    ensures |vs| == 6
    ensures vs[0] == vs[5] && vs[2] == vs[3]
    ensures forall i :: 0 <= i < 6 ==> V.IsUnitSign(V.X(vs[i])) && V.IsUnitSign(V.Y(vs[i]))
  {
    var right := ImgRect.Right(bounds) as real / texWidth as real;
    var left := ImgRect.Left(bounds) as real / texWidth as real;
    var top := ImgRect.Top(bounds) as real / texHeight as real;
    var bottom := ImgRect.Bottom(bounds) as real / texHeight as real;
    [V.NewWithTex(V.Vec2(1.0, 1.0), V.Vec2(right, top)),
     V.NewWithTex(V.Vec2(-1.0, 1.0), V.Vec2(left, top)),
     V.NewWithTex(V.Vec2(-1.0, -1.0), V.Vec2(left, bottom)),
     V.NewWithTex(V.Vec2(-1.0, -1.0), V.Vec2(left, bottom)),
     V.NewWithTex(V.Vec2(1.0, -1.0), V.Vec2(right, bottom)),
     V.NewWithTex(V.Vec2(1.0, 1.0), V.Vec2(right, top))]
  }

  /** The texture coordinate is the affine image of the position that sends
      clip x = -1, 1 to `l`, `r` and clip y = -1, 1 to `b`, `t`. */
  predicate SamplesAffinely(v: V.Vertex, l: real, r: real, t: real, b: real) {
    v.texCoord.x == l + (V.X(v) + 1.0) / 2.0 * (r - l) &&
    v.texCoord.y == b + (V.Y(v) + 1.0) / 2.0 * (t - b)
  }

  /** Each clip corner samples the matching corner of the bound: clip x = 1
      reads the right edge and -1 the left, clip y = 1 reads the top edge
      and -1 the bottom, and all four corners of the square are drawn. */
  lemma CropQuadSamplesBound(bounds: ImgRect.Rect, texWidth: nat, texHeight: nat)
    requires ImgRect.HasEdges(bounds) && texWidth > 0 && texHeight > 0
    ensures var vs := CropQuad(bounds, texWidth, texHeight);
      forall i :: 0 <= i < 6 ==> SamplesAffinely(vs[i],
        ImgRect.Left(bounds) as real / texWidth as real, ImgRect.Right(bounds) as real / texWidth as real,
        ImgRect.Top(bounds) as real / texHeight as real, ImgRect.Bottom(bounds) as real / texHeight as real)
    ensures var vs := CropQuad(bounds, texWidth, texHeight);
      forall sx, sy :: V.IsUnitSign(sx) && V.IsUnitSign(sy) ==>
        exists i :: 0 <= i < 6 && vs[i].position == V.Vec2(sx, sy)
  {
    var vs := CropQuad(bounds, texWidth, texHeight);
    var l := ImgRect.Left(bounds) as real / texWidth as real;
    var r := ImgRect.Right(bounds) as real / texWidth as real;
    var t := ImgRect.Top(bounds) as real / texHeight as real;
    var b := ImgRect.Bottom(bounds) as real / texHeight as real;
    assert vs[0] == V.Vertex(V.Vec2(1.0, 1.0), V.Vec2(r, t));
    assert vs[1] == V.Vertex(V.Vec2(-1.0, 1.0), V.Vec2(l, t));
    assert vs[2] == vs[3] == V.Vertex(V.Vec2(-1.0, -1.0), V.Vec2(l, b));
    assert vs[4] == V.Vertex(V.Vec2(1.0, -1.0), V.Vec2(r, b));
    assert vs[5] == vs[0];
    assert SamplesAffinely(vs[0], l, r, t, b);
    assert SamplesAffinely(vs[1], l, r, t, b);
    assert SamplesAffinely(vs[2], l, r, t, b);
    assert SamplesAffinely(vs[4], l, r, t, b);
    forall sx, sy | V.IsUnitSign(sx) && V.IsUnitSign(sy)
      ensures exists i :: 0 <= i < 6 && vs[i].position == V.Vec2(sx, sy)
    {
      if sx == 1.0 && sy == 1.0 { assert vs[0].position == V.Vec2(sx, sy); }
      else if sx == -1.0 && sy == 1.0 { assert vs[1].position == V.Vec2(sx, sy); }
      else if sx == -1.0 { assert vs[2].position == V.Vec2(sx, sy); }
      else { assert vs[4].position == V.Vec2(sx, sy); }
    }
  }
}
