/** src/imggpu/vertex.rs: triangulation of a vertex list by index
    arithmetic, walking the even vertices on the second pass, and the
    shape-to-clip-space vertex lists fed into it. */
module Triangles {

  import opened Vertices
  import opened ImgGeom
  import SatRect
  import OldShape

  /** The input index read for output slot `j = cur + i`: in range it is
      used as is; past the end it wraps to `(2 * j) % n`, which walks the
      even vertices on the second pass. */
  function SlotIndex(j: nat, n: nat): (k: nat)
    requires n > 0
    ensures k < n
  {
    if j < n then j else (2 * j) % n
  }

  /** The reference triangulation: triangle `t` (for `t < n - 2`) reads slots
      `2t`, `2t + 1`, `2t + 2`. */
  function TriangleList(list: seq<Vertex>): (out: seq<Vertex>)
    requires |list| >= 2
    ensures |out| == 3 * (|list| - 2)
  {
    seq(3 * (|list| - 2), m requires 0 <= m < 3 * (|list| - 2) =>
      list[SlotIndex(2 * (m / 3) + m % 3, |list|)])
  }

  /** `to_triangles`: `needed = len - 2` rounds, each pushing three vertices
      and advancing `cur_idx` by 2. The subtraction underflows below two
      vertices, so at least two are required. */
  method ToTriangles(list: seq<Vertex>) returns (out: seq<Vertex>)
    requires |list| >= 2
    ensures out == TriangleList(list)
  {
    var n := |list|;
    var needed := n - 2;
    out := [];
    var cur := 0;
    while needed > 0
      invariant 0 <= needed <= n - 2
      invariant cur == 2 * (n - 2 - needed)
      invariant |out| == 3 * (n - 2 - needed)
      invariant out == TriangleList(list)[..|out|]
    {
      var i := 0;
      while i < 3
        invariant 0 <= i <= 3
        invariant |out| == 3 * (n - 2 - needed) + i
        invariant out == TriangleList(list)[..|out|]
      {
        var idx := cur + i;
        idx := if idx < n then idx else (idx * 2) % n;
        SlotOfRound(n - 2 - needed, i);
        assert idx == SlotIndex(2 * (|out| / 3) + |out| % 3, n);
        out := out + [list[idx]];
        i := i + 1;
      }
      cur := cur + 2;
      needed := needed - 1;
    }
  }

  /** Output slot `3t + i` is vertex `i` of triangle `t`. */
  lemma SlotOfRound(t: nat, i: nat)
    requires i < 3
    ensures (3 * t + i) / 3 == t && (3 * t + i) % 3 == i
  {
  }

  /** Every output vertex is one of the inputs, and the first triangle is
      the first three inputs. */
  lemma TriangleListFacts(list: seq<Vertex>)
    requires |list| >= 2
    ensures forall m :: 0 <= m < |TriangleList(list)| ==> TriangleList(list)[m] in list
    ensures |list| >= 3 ==> TriangleList(list)[..3] == list[..3]
    ensures |list| == 2 ==> TriangleList(list) == []
  {
  }

  /** Triangle `t` reads inputs `2t`, `2t + 1`, `2t + 2`, each wrapped. */
  lemma TriangleReads(list: seq<Vertex>, t: nat)
    requires |list| >= 2 && t < |list| - 2
    ensures TriangleList(list)[3 * t] == list[SlotIndex(2 * t, |list|)]
    ensures TriangleList(list)[3 * t + 1] == list[SlotIndex(2 * t + 1, |list|)]
    ensures TriangleList(list)[3 * t + 2] == list[SlotIndex(2 * t + 2, |list|)]
  {
    assert (3 * t) / 3 == t && (3 * t) % 3 == 0;
    assert (3 * t + 1) / 3 == t && (3 * t + 1) % 3 == 1;
    assert (3 * t + 2) / 3 == t && (3 * t + 2) % 3 == 2;
  }

  /** Four inputs give [v0, v1, v2, v2, v3, v0]. */
  lemma FourVertices(v0: Vertex, v1: Vertex, v2: Vertex, v3: Vertex)
    ensures TriangleList([v0, v1, v2, v3]) == [v0, v1, v2, v2, v3, v0]
  {
    var out := TriangleList([v0, v1, v2, v3]);
    assert out[5] == [v0, v1, v2, v3][SlotIndex(4, 4)];
  }

  // ---------------------------------------------------------------------
  // Shapes to clip space

  /** `clip_x`: pixel column to clip x in [-1, 1]. */
  function ClipX(x: nat, width: nat): real
    requires width > 0
  {
    x as real / width as real * 2.0 - 1.0
  }

  /** `clip_y`: pixel row to clip y, with the axis inverted. */
  function ClipY(y: nat, height: nat): real
    requires height > 0
  {
    1.0 - y as real / height as real * 2.0
  }

  /** The frame's edges map to the clip square's edges, and points inside
      the frame map inside the square. */
  lemma ClipRange(x: nat, y: nat, width: nat, height: nat)
    requires width > 0 && height > 0
    ensures ClipX(0, width) == -1.0 && ClipX(width, width) == 1.0
    ensures ClipY(0, height) == 1.0 && ClipY(height, height) == -1.0
    ensures x <= width ==> -1.0 <= ClipX(x, width) <= 1.0
    ensures y <= height ==> -1.0 <= ClipY(y, height) <= 1.0
  {
    if x <= width {
      assert x as real / width as real <= 1.0;
    }
    if y <= height {
      assert y as real / height as real <= 1.0;
    }
  }

  function Reverse<T>(s: seq<T>): (r: seq<T>)
    ensures |r| == |s| && forall i :: 0 <= i < |s| ==> r[i] == s[|s| - 1 - i]
  {
    if |s| == 0 then [] else Reverse(s[1..]) + [s[0]]
  }

  /** The pre-triangulation vertex list: a point list's points in reverse
      order, or a rectangle's corners in the order top-right, top-left,
      bottom-left, bottom-right. */
  function ShapeCorners(s: OldShape.Shape, width: nat, height: nat): (vs: seq<Vertex>)
    requires width > 0 && height > 0
    ensures s.NPoint? ==> (|vs| == |s.poly.points| &&
      forall i :: 0 <= i < |vs| ==>
        var q := s.poly.points[|vs| - 1 - i];
        vs[i] == New(Vec2(ClipX(q.x, width), ClipY(q.y, height))))
    ensures s.RectShape? ==> (|vs| == 4 &&
      var r := s.rect;
      var cr, cl := ClipX(SatRect.Right(r), width), ClipX(SatRect.Left(r), width);
      var ct, cb := ClipY(SatRect.Top(r), height), ClipY(SatRect.Bottom(r), height);
      vs == [New(Vec2(cr, ct)), New(Vec2(cl, ct)), New(Vec2(cl, cb)), New(Vec2(cr, cb))])
  {
    match s
    case NPoint(p) =>
      Reverse(seq(|p.points|, i requires 0 <= i < |p.points| =>
        New(Vec2(ClipX(p.points[i].x, width), ClipY(p.points[i].y, height)))))
    case RectShape(r) =>
      var cr, cl := ClipX(SatRect.Right(r), width), ClipX(SatRect.Left(r), width);
      var ct, cb := ClipY(SatRect.Top(r), height), ClipY(SatRect.Bottom(r), height);
      [New(Vec2(cr, ct)), New(Vec2(cl, ct)), New(Vec2(cl, cb)), New(Vec2(cr, cb))]
  }

  /** `triangles_for_shape`: the shape's clip-space vertices, triangulated. */
  function TrianglesForShape(s: OldShape.Shape, width: nat, height: nat): (vs: seq<Vertex>)
    requires width > 0 && height > 0
    requires s.NPoint? ==> |s.poly.points| >= 2
    ensures |vs| == 3 * (|ShapeCorners(s, width, height)| - 2)
    ensures s.RectShape? ==> |vs| == 6
  {
    TriangleList(ShapeCorners(s, width, height))
  }

  lemma ClipExamples()
    ensures ClipX(20, 20) == 1.0 && ClipX(10, 20) == 0.0
    ensures ClipY(0, 20) == 1.0 && ClipY(10, 20) == 0.0 && ClipY(20, 20) == -1.0
  {
  }

  /** A 10 by 10 rectangle at (10, 0) in a 20 by 20 frame has its corners
      at the upper right quarter of clip space. */
  lemma RectCorners()
    ensures ShapeCorners(OldShape.RectShape(SatRect.FromTl(10, 0, 10, 10)), 20, 20) ==
      [New(Vec2(1.0, 1.0)), New(Vec2(0.0, 1.0)), New(Vec2(0.0, 0.0)), New(Vec2(1.0, 0.0))]
  {
    var r := SatRect.FromTl(10, 0, 10, 10);
    assert SatRect.Left(r) == 10 && SatRect.Right(r) == 20;
    assert SatRect.Top(r) == 0 && SatRect.Bottom(r) == 10;
    ClipExamples();
  }

  /** Any rectangle becomes the two triangles (TR, TL, BL) and (BL, BR, TR). */
  lemma RectTriangles(r: SatRect.Rect, width: nat, height: nat)
    requires width > 0 && height > 0
    ensures var cs := ShapeCorners(OldShape.RectShape(r), width, height);
      TrianglesForShape(OldShape.RectShape(r), width, height) == [cs[0], cs[1], cs[2], cs[2], cs[3], cs[0]]
  {
    var cs := ShapeCorners(OldShape.RectShape(r), width, height);
    FourVertices(cs[0], cs[1], cs[2], cs[3]);
    assert cs == [cs[0], cs[1], cs[2], cs[3]];
  }

  /** A three-point polygon is one triangle of its points in reverse order. */
  lemma TrianglePolygonExample()
    ensures TrianglesForShape(OldShape.NPoint(Polygon([Point(10, 10), Point(20, 10), Point(20, 20)])), 20, 20) ==
      [New(Vec2(1.0, -1.0)), New(Vec2(1.0, 0.0)), New(Vec2(0.0, 0.0))]
  {
    var cs := ShapeCorners(OldShape.NPoint(Polygon([Point(10, 10), Point(20, 10), Point(20, 20)])), 20, 20);
    assert cs == [New(Vec2(1.0, -1.0)), New(Vec2(1.0, 0.0)), New(Vec2(0.0, 0.0))];
  }

  /** A four-point polygon is two triangles over its reversed points. */
  lemma SquarePolygonExample()
    ensures TrianglesForShape(OldShape.NPoint(Polygon([Point(10, 10), Point(20, 10), Point(20, 20), Point(10, 20)])), 20, 20) ==
      [New(Vec2(0.0, -1.0)), New(Vec2(1.0, -1.0)), New(Vec2(1.0, 0.0)),
       New(Vec2(1.0, 0.0)), New(Vec2(0.0, 0.0)), New(Vec2(0.0, -1.0))]
  {
    var cs := ShapeCorners(OldShape.NPoint(Polygon([Point(10, 10), Point(20, 10), Point(20, 20), Point(10, 20)])), 20, 20);
    assert cs == [New(Vec2(0.0, -1.0)), New(Vec2(1.0, -1.0)), New(Vec2(1.0, 0.0)), New(Vec2(0.0, 0.0))];
    FourVertices(cs[0], cs[1], cs[2], cs[3]);
  }
}
