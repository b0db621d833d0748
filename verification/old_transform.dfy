/** The per-statement transform of the earlier code generation
    (src/transform.rs): its configuration, the rotation uniform handed to
    the shader, and the vertex list of its shape.

    The render pass itself is not modelled. `Shape` has no default in
    src/shapes/shape.rs, so the shape `Default` starts from is a parameter;
    cosine and sine of an angle in degrees are parameters too. The vertex
    match in src/transform.rs names a `Shape::Polygon` arm that
    src/shapes/shape.rs does not declare; it is read as the `NPoint` arm. */
module OldTransform {

  import opened Wrappers
  import opened ImgGeom
  import opened Vertices
  import SatRect
  import OldShape
  import Triangles

  datatype FlipVariant = Vertical | Horizontal | Both

  datatype Transform = Transform(
    shape: OldShape.Shape,
    copyDest: Option<OldShape.Shape>,
    swap: Option<OldShape.Shape>,
    rotateDeg: Option<real>,
    flip: Option<FlipVariant>,
    scale: real,
    tile: bool)

  /** `Default`: unit scale, no tiling, and nothing to copy to, swap with,
      rotate or flip. */
  function Default(defaultShape: OldShape.Shape): (t: Transform)
    ensures t.shape == defaultShape
    ensures t.scale == 1.0 && !t.tile
    ensures t.copyDest.None? && t.swap.None? && t.rotateDeg.None? && t.flip.None?
  {
    Transform(defaultShape, None, None, None, None, 1.0, false)
  }

  /** `new`: the default with the given shape. */
  function New(s: OldShape.Shape): (t: Transform)
    ensures t.shape == s
    ensures t.scale == 1.0 && !t.tile
    ensures t.copyDest.None? && t.swap.None? && t.rotateDeg.None? && t.flip.None?
  {
    Default(s)
  }

  /** Whatever shape the default starts from, `new` differs from it in the
      shape alone. */
  lemma NewDiffersOnlyInShape(s: OldShape.Shape, defaultShape: OldShape.Shape)
    ensures New(s) == Default(defaultShape).(shape := s)
  {
  }

  // ---------------------------------------------------------------------
  // Setters: each writes one field and keeps the rest

  function SetFlip(t: Transform, f: FlipVariant): (r: Transform)
    ensures r.flip == Some(f)
    ensures r.(flip := t.flip) == t
  {
    t.(flip := Some(f))
  }

  function CopyTo(t: Transform, s: OldShape.Shape): (r: Transform)
    ensures r.copyDest == Some(s)
    ensures r.(copyDest := t.copyDest) == t
  {
    t.(copyDest := Some(s))
  }

  function SwapWith(t: Transform, s: OldShape.Shape): (r: Transform)
    ensures r.swap == Some(s)
    ensures r.(swap := t.swap) == t
  {
    t.(swap := Some(s))
  }

  function SetScale(t: Transform, s: real): (r: Transform)
    ensures r.scale == s
    ensures r.(scale := t.scale) == t
  {
    t.(scale := s)
  }

  function SetTiling(t: Transform, on: bool): (r: Transform)
    ensures r.tile == on
    ensures r.(tile := t.tile) == t
  {
    t.(tile := on)
  }

  function SetRotDegrees(t: Transform, deg: real): (r: Transform)
    ensures r.rotateDeg == Some(deg)
    ensures r.(rotateDeg := t.rotateDeg) == t
  {
    t.(rotateDeg := Some(deg))
  }

  /** Setters on different fields commute, and a setter applied twice keeps
      only its last value. */
  lemma SettersCommuteAndOverwrite(t: Transform, f: FlipVariant, s: real, deg: real, deg2: real)
    ensures SetFlip(SetScale(t, s), f) == SetScale(SetFlip(t, f), s)
    ensures SetRotDegrees(SetRotDegrees(t, deg), deg2) == SetRotDegrees(t, deg2)
    ensures SetTiling(SetTiling(t, true), false) == SetTiling(t, false)
  {
  }

  // ---------------------------------------------------------------------
  // Rotation uniform

  /** The three floats written to the `rot` buffer: a flag, then cosine and
      sine of the angle, or all zero without a rotation. */
  function RotUniform(t: Transform, cosDeg: real -> real, sinDeg: real -> real): (u: seq<real>)
    ensures |u| == 3
    ensures t.rotateDeg.None? <==> u[0] == 0.0
    ensures t.rotateDeg.None? ==> u == [0.0, 0.0, 0.0]
    ensures t.rotateDeg.Some? ==> u == [1.0, cosDeg(t.rotateDeg.value), sinDeg(t.rotateDeg.value)]
  {
    match t.rotateDeg
    case Some(d) => [1.0, cosDeg(d), sinDeg(d)]
    case None => [0.0, 0.0, 0.0]
  }

  /** The uniform follows the rotation setter: a new transform hands the
      shader no rotation, and after `set_rot_degrees` it carries that
      angle's cosine and sine. Two transforms hand the shader the same
      uniform exactly when neither rotates, or both rotate by angles with
      the same cosine and sine; no other field matters. */
  lemma RotUniformTracksRotation(t: Transform, t': Transform, s: OldShape.Shape, deg: real,
                                 cosDeg: real -> real, sinDeg: real -> real)
    ensures RotUniform(New(s), cosDeg, sinDeg) == [0.0, 0.0, 0.0]
    ensures RotUniform(SetRotDegrees(t, deg), cosDeg, sinDeg) == [1.0, cosDeg(deg), sinDeg(deg)]
    ensures RotUniform(t, cosDeg, sinDeg) == RotUniform(t', cosDeg, sinDeg) <==>
      (t.rotateDeg.None? && t'.rotateDeg.None?) ||
      (t.rotateDeg.Some? && t'.rotateDeg.Some? &&
       cosDeg(t.rotateDeg.value) == cosDeg(t'.rotateDeg.value) &&
       sinDeg(t.rotateDeg.value) == sinDeg(t'.rotateDeg.value))
  {
  }

  // ---------------------------------------------------------------------
  // Vertices

  /** `make_vtx`: the texture coordinate is the pixel over the frame size;
      the clip position scales that coordinate by `scale` from the top-left
      corner of clip space. */
  function MakeVertex(t: Transform, x: nat, y: nat, width: nat, height: nat): (v: Vertex)
    requires width > 0 && height > 0
    ensures v.texCoord == Vec2(x as real / width as real, y as real / height as real)
    ensures v.position.x + 1.0 == t.scale * (v.texCoord.x * 2.0)
    ensures 1.0 - v.position.y == t.scale * (v.texCoord.y * 2.0)
  {
    var tx := x as real / width as real;
    var ty := y as real / height as real;
    NewWithTex(Vec2(t.scale * tx * 2.0 - 1.0, 1.0 - ty * 2.0 * t.scale), Vec2(tx, ty))
  }

  /** At unit scale the clip position is the plain pixel-to-clip mapping of
      src/imggpu/vertex.rs, and at any scale the frame's top-left pixel
      stays at clip (-1, 1). */
  lemma MakeVertexScaling(t: Transform, x: nat, y: nat, width: nat, height: nat)
    requires width > 0 && height > 0
    ensures t.scale == 1.0 ==>
      MakeVertex(t, x, y, width, height).position ==
        Vec2(Triangles.ClipX(x, width), Triangles.ClipY(y, height))
    ensures MakeVertex(t, 0, 0, width, height).position == Vec2(-1.0, 1.0)
  {
  }

  /** The list handed to `to_triangles`: a point list's points in order, or
      a rectangle's corners in the order top-right, top-left, bottom-left,
      bottom-right. */
  function ShapeVertices(t: Transform, width: nat, height: nat): (vs: seq<Vertex>)
    requires width > 0 && height > 0
    ensures t.shape.NPoint? ==> (|vs| == |t.shape.poly.points| &&
      forall i :: 0 <= i < |vs| ==>
        vs[i] == MakeVertex(t, t.shape.poly.points[i].x, t.shape.poly.points[i].y, width, height))
    ensures t.shape.RectShape? ==> (|vs| == 4 &&
      var r := t.shape.rect;
      var l, rt, tp, b := SatRect.Left(r), SatRect.Right(r), SatRect.Top(r), SatRect.Bottom(r);
      vs == [MakeVertex(t, rt, tp, width, height), MakeVertex(t, l, tp, width, height),
             MakeVertex(t, l, b, width, height), MakeVertex(t, rt, b, width, height)])
  {
    match t.shape
    case NPoint(p) =>
      seq(|p.points|, i requires 0 <= i < |p.points| => MakeVertex(t, p.points[i].x, p.points[i].y, width, height))
    case RectShape(r) =>
      var l, rt, tp, b := SatRect.Left(r), SatRect.Right(r), SatRect.Top(r), SatRect.Bottom(r);
      [MakeVertex(t, rt, tp, width, height), MakeVertex(t, l, tp, width, height),
       MakeVertex(t, l, b, width, height), MakeVertex(t, rt, b, width, height)]
  }

  /** `vertices`: the shape's vertex list, triangulated. Fewer than two
      points underflow the triangle count, so a point list needs two. */
  function TransformVertices(t: Transform, width: nat, height: nat): (vs: seq<Vertex>)
    requires width > 0 && height > 0
    requires t.shape.NPoint? ==> |t.shape.poly.points| >= 2
    ensures t.shape.NPoint? ==> |vs| == 3 * (|t.shape.poly.points| - 2)
    ensures t.shape.RectShape? ==> |vs| == 6
    ensures forall i :: 0 <= i < |vs| ==> vs[i] in ShapeVertices(t, width, height)
  {
    Triangles.TriangleListFacts(ShapeVertices(t, width, height));
    Triangles.TriangleList(ShapeVertices(t, width, height))
  }

  /** A rectangle's six vertices are the triangles (TR, TL, BL) and
      (BL, BR, TR). */
  lemma RectVertices(t: Transform, width: nat, height: nat)
    requires width > 0 && height > 0 && t.shape.RectShape?
    ensures var cs := ShapeVertices(t, width, height);
      TransformVertices(t, width, height) == [cs[0], cs[1], cs[2], cs[2], cs[3], cs[0]]
  {
    var cs := ShapeVertices(t, width, height);
    Triangles.FourVertices(cs[0], cs[1], cs[2], cs[3]);
    assert cs == [cs[0], cs[1], cs[2], cs[3]];
  }
}
