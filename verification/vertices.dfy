/** The GPU vertex record shared by eymo-img/src/imggpu/vertex.rs and
    src/imggpu/vertex.rs: a clip-space position and a texture coordinate, two
    floats each. */
module Vertices {

  datatype Vec2 = Vec2(x: real, y: real)

  datatype Vertex = Vertex(position: Vec2, texCoord: Vec2)

  const Origin: Vec2 := Vec2(0.0, 0.0)

  /** `Vertex::new(coord)`: the position, with the texture coordinate at 0. */
  function New(coord: Vec2): Vertex {
    Vertex(coord, Origin)
  }

  /** `Vertex::new_with_tex(coord, tex)`. */
  function NewWithTex(coord: Vec2, tex: Vec2): Vertex {
    Vertex(coord, tex)
  }

  function X(v: Vertex): real {
    v.position.x
  }

  function Y(v: Vertex): real {
    v.position.y
  }

  /** The accessors read back what the constructors stored. */
  lemma ConstructorsStore(c: Vec2, t: Vec2)
    ensures X(New(c)) == c.x && Y(New(c)) == c.y && New(c).texCoord == Origin
    ensures X(NewWithTex(c, t)) == c.x && Y(NewWithTex(c, t)) == c.y
    ensures NewWithTex(c, t).texCoord == t
    ensures New(c) == NewWithTex(c, Origin)
  {
  }

  function AddVec(a: Vec2, b: Vec2): Vec2 {
    Vec2(a.x + b.x, a.y + b.y)
  }

  function SubVec(a: Vec2, b: Vec2): Vec2 {
    Vec2(a.x - b.x, a.y - b.y)
  }

  /** `add(o)`: componentwise sum of both position and texture coordinate. */
  function Add(v: Vertex, o: Vertex): Vertex {
    Vertex(AddVec(v.position, o.position), AddVec(v.texCoord, o.texCoord))
  }

  /** `sub(o)`: componentwise difference of both. */
  function Sub(v: Vertex, o: Vertex): Vertex {
    Vertex(SubVec(v.position, o.position), SubVec(v.texCoord, o.texCoord))
  }

  /** `mult_pos(mag)`: scales the position only. */
  function MultPos(v: Vertex, mag: real): Vertex {
    Vertex(Vec2(v.position.x * mag, v.position.y * mag), v.texCoord)
  }

  /** Adding then subtracting the same vertex, or the reverse, restores both
      the position and the texture coordinate. */
  lemma AddSubInverse(v: Vertex, o: Vertex)
    ensures Sub(Add(v, o), o) == v
    ensures Add(Sub(v, o), o) == v
  {
  }

  /** Scaling leaves the texture coordinate alone, and scaling by a non-zero
      factor is undone by its reciprocal. */
  lemma MultPosFacts(v: Vertex, mag: real)
    ensures MultPos(v, mag).texCoord == v.texCoord
    ensures X(MultPos(v, mag)) == X(v) * mag && Y(MultPos(v, mag)) == Y(v) * mag
    ensures MultPos(v, 1.0) == v
    ensures mag != 0.0 ==> MultPos(MultPos(v, mag), 1.0 / mag) == v
  {
    if mag != 0.0 {
      assert v.position.x * mag * (1.0 / mag) == v.position.x;
      assert v.position.y * mag * (1.0 / mag) == v.position.y;
    }
  }

  /** `triangles_for_full_coverage`: two triangles over the clip square. */
  function FullCoverage(): (vs: seq<Vertex>)
    ensures |vs| == 6
  {
    [New(Vec2(1.0, 1.0)), New(Vec2(-1.0, 1.0)), New(Vec2(-1.0, -1.0)),
     New(Vec2(1.0, 1.0)), New(Vec2(-1.0, -1.0)), New(Vec2(1.0, -1.0))]
  }

  predicate IsUnitSign(r: real) {
    r == 1.0 || r == -1.0
  }

  /** Every coordinate is ±1, every texture coordinate is 0, all four corners
      of the square appear, and the two triangles share the diagonal from
      (1, 1) to (-1, -1). */
  lemma FullCoverageCoversSquare()
    ensures forall i :: 0 <= i < 6 ==>
      IsUnitSign(X(FullCoverage()[i])) && IsUnitSign(Y(FullCoverage()[i])) &&
      FullCoverage()[i].texCoord == Origin
    ensures forall sx, sy :: IsUnitSign(sx) && IsUnitSign(sy) ==>
      exists i :: 0 <= i < 6 && FullCoverage()[i].position == Vec2(sx, sy)
    ensures FullCoverage()[0] == FullCoverage()[3] && FullCoverage()[2] == FullCoverage()[4]
  {
    var vs := FullCoverage();
    forall sx, sy | IsUnitSign(sx) && IsUnitSign(sy)
      ensures exists i :: 0 <= i < 6 && vs[i].position == Vec2(sx, sy)
    {
      if sx == 1.0 && sy == 1.0 { assert vs[0].position == Vec2(sx, sy); }
      else if sx == -1.0 && sy == 1.0 { assert vs[1].position == Vec2(sx, sy); }
      else if sx == -1.0 { assert vs[2].position == Vec2(sx, sy); }
      else { assert vs[5].position == Vec2(sx, sy); }
    }
  }
}
