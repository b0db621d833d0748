/** The rule interpreter of eymo-img/src/lang.rs: building one transform per
    statement, resolving a statement's target and its copy and swap
    destinations against the detected faces, and running the statements of
    a frame in order under a time budget.

    Index arithmetic follows the source's integer types. A face number is a
    `u32`, a relative offset an `i32`, and `len as i32` is exact because a
    detection never holds 2^31 faces. An `i32` sum or difference that
    overflows, a remainder by zero faces and an out-of-range index are Rust
    panics; they are `Err` here and abort the frame. The `forehead` feature
    that `face_shape` reads is not a field of the face record, so it is a
    parameter. */
module Interp {

  import opened Wrappers
  import opened Num
  import opened Text
  import opened ImgGeom
  import opened ImgFace
  import opened Ast
  import S = ImgShape
  import T = ImgTransform

  /** The face number and offset fields hold `u32` and `i32` values. */
  predicate ValidRef(fr: FaceRef) {
    fr.faceIdx.Some? ==> ValidIdx(fr.faceIdx.value)
  }

  predicate ValidShape(s: Ast.Shape) {
    s.FaceShape? ==> ValidRef(s.faceRef)
  }

  predicate ValidOp(o: Operation) {
    match o
    case CopyTo(others) => forall i :: 0 <= i < |others| ==> ValidShape(others[i])
    case SwapWith(other) => ValidShape(other)
    case Translate(dx, dy) => IsI32(dx) && IsI32(dy)
    case _ => true
  }

  predicate ValidCmd(cmd: Ast.Transform) {
    ValidShape(cmd.shape) && forall i :: 0 <= i < |cmd.operations| ==> ValidOp(cmd.operations[i])
  }

  /** `face_shape`: the polygon of the named part, as a shape. */
  function FaceShapeOf(p: FacePart, f: Face, forehead: Face -> Polygon): (s: S.Shape)
    ensures s.PolyShape?
  {
    S.PolyShape(
      match p
      case LEye => f.lEye
      case LEyeRegion => f.lEyeRegion
      case REye => f.rEye
      case REyeRegion => f.rEyeRegion
      case Face => f.face
      case Mouth => f.mouth
      case Nose => f.nose
      case Forehead => forehead(f))
  }

  /** The face with the polygon of part `p` replaced by `x`. The forehead
      is computed from the face rather than stored, so it has no polygon to
      replace. */
  function WithPart(f: Face, p: FacePart, x: Polygon): Face {
    match p
    case LEye => f.(lEye := x)
    case LEyeRegion => f.(lEyeRegion := x)
    case REye => f.(rEye := x)
    case REyeRegion => f.(rEyeRegion := x)
    case Face => f.(face := x)
    case Mouth => f.(mouth := x)
    case Nose => f.(nose := x)
    case Forehead => f
  }

  /** A part resolves to its own polygon and to nothing else of the face:
      replacing that polygon changes the part's shape to the new one, and
      replacing another part's polygon leaves it alone. The forehead is
      whatever the forehead computation gives for the face. */
  lemma FaceShapeReadsItsPart(p: FacePart, q: FacePart, f: Face, x: Polygon, forehead: Face -> Polygon)
    ensures p != Forehead ==> FaceShapeOf(p, WithPart(f, p, x), forehead) == S.PolyShape(x)
    ensures p != q && q != Forehead ==> FaceShapeOf(q, WithPart(f, p, x), forehead) == FaceShapeOf(q, f, forehead)
    ensures FaceShapeOf(Forehead, f, forehead) == S.PolyShape(forehead(f))
  {
  }

  /** An `i32` result, or the overflow panic. */
  function CheckedI32(v: int): (r: Result<int>)
    ensures r.Ok? <==> IsI32(v)
    ensures r.Ok? ==> r.value == v
  {
    if IsI32(v) then Ok(v) else Err("arithmetic overflow")
  }

  // ---------------------------------------------------------------------
  // shapes

  /** The index a relative reference reads: `(rel + target as i32) % len`
      (or `rel % len` without a target), truncating, then cast to `usize`. */
  function RelativeIndex(rel: int, target: Option<nat>, len: nat): (r: Result<nat>)
    requires IsI32(rel) && len <= I32_MAX
    ensures r.Ok? <==> len > 0 && IsI32(rel + (if target.Some? then I32OfUsize(target.value) else 0))
    ensures r.Ok? ==> r.value == UsizeOfI32(TRem(rel + (if target.Some? then I32OfUsize(target.value) else 0), len))
  {
    var sum :- CheckedI32(match target case Some(t) => rel + I32OfUsize(t) case None => rel);
    if len == 0 then Err("attempt to calculate the remainder with a divisor of zero")
    else Ok(UsizeOfI32(TRem(sum, len)))
  }

  /** `shapes`: what a face reference resolves to, seen from the face
      `target` (when there is one). */
  function Shapes(fr: FaceRef, d: Detection, target: Option<nat>, forehead: Face -> Polygon): (r: Result<seq<S.Shape>>)
    requires ValidRef(fr) && |d| <= I32_MAX
    ensures fr.faceIdx.None? || fr.faceIdx.value.Absolute? ==> r.Ok?
    ensures r.Ok? ==> forall i :: 0 <= i < |r.value| ==>
      exists k :: 0 <= k < |d| && r.value[i] == FaceShapeOf(fr.part, d[k], forehead)
  {
    match fr.faceIdx
    case Some(Absolute(abs)) =>
      Ok(if abs < |d| then [FaceShapeOf(fr.part, d[abs], forehead)] else [])
    case Some(Relative(rel)) =>
      var idx :- RelativeIndex(rel, target, |d|);
      if idx < |d| then Ok([FaceShapeOf(fr.part, d[idx], forehead)])
      else Err("index out of bounds")
    case None =>
      match target
      case Some(t) => Ok(if t < |d| then [FaceShapeOf(fr.part, d[t], forehead)] else [])
      case None =>
        var all := seq(|d|, i requires 0 <= i < |d| => FaceShapeOf(fr.part, d[i], forehead));
        assert forall i :: 0 <= i < |d| ==> all[i] == FaceShapeOf(fr.part, d[i], forehead);
        Ok(all)
  }

  /** An absolute reference gives the numbered face's part if there is such
      a face and nothing otherwise; a reference without a number gives the
      target face's part, or, without a target, every face's part in
      detection order. */
  lemma ShapesAbsoluteAndPlain(part: FacePart, n: nat, d: Detection, target: Option<nat>, forehead: Face -> Polygon)
    requires n <= U32_MAX && |d| <= I32_MAX
    ensures var r := Shapes(FaceRef(part, Some(Absolute(n))), d, target, forehead);
      r.Ok? && |r.value| <= 1 && (|r.value| == 1 <==> n < |d|) &&
      (n < |d| ==> r.value[0] == FaceShapeOf(part, d[n], forehead))
    ensures forall t: nat :: var r := Shapes(FaceRef(part, None), d, Some(t), forehead);
      r.Ok? && (|r.value| == 1 <==> t < |d|) && (t >= |d| ==> r.value == []) &&
      (t < |d| ==> r.value == [FaceShapeOf(part, d[t], forehead)])
    ensures var r := Shapes(FaceRef(part, None), d, None, forehead);
      r.Ok? && |r.value| == |d| && forall i :: 0 <= i < |d| ==> r.value[i] == FaceShapeOf(part, d[i], forehead)
  {
  }

  /** A relative reference panics when there are no faces. Otherwise, when
      `rel + target` is not negative it reads face `(rel + target) mod len`;
      when it is negative it reads face 0 if `len` divides it and panics
      otherwise, since the truncated remainder is negative and its `usize`
      cast is out of range. */
  lemma ShapesRelative(part: FacePart, rel: int, d: Detection, t: nat, forehead: Face -> Polygon)
    requires IsI32(rel) && |d| <= I32_MAX && t <= I32_MAX && IsI32(rel + t)
    ensures |d| == 0 ==> Shapes(FaceRef(part, Some(Relative(rel))), d, Some(t), forehead).Err?
    ensures |d| > 0 && rel + t >= 0 ==>
      Shapes(FaceRef(part, Some(Relative(rel))), d, Some(t), forehead) ==
        Ok([FaceShapeOf(part, d[(rel + t) % |d|], forehead)])
    ensures |d| > 0 && rel + t < 0 && (rel + t) % |d| == 0 ==>
      Shapes(FaceRef(part, Some(Relative(rel))), d, Some(t), forehead) ==
        Ok([FaceShapeOf(part, d[0], forehead)])
    ensures |d| > 0 && rel + t < 0 && (rel + t) % |d| != 0 ==>
      Shapes(FaceRef(part, Some(Relative(rel))), d, Some(t), forehead).Err?
  {
    ShapesRelativeIndex(part, rel, d, t, forehead);
    if |d| > 0 {
      var m := TRem(rel + t, |d|);
      if rel + t >= 0 {
        assert m == (rel + t) % |d|;
      } else {
        NegativeRemainder(rel + t, |d|);
        if m != 0 {
          assert UsizeOfI32(m) >= |d|;
        }
      }
    }
  }

  /** A relative reference seen from face `t` reads the `usize` cast of the
      truncated remainder of `rel + t`, when that is a face. */
  lemma ShapesRelativeIndex(part: FacePart, rel: int, d: Detection, t: nat, forehead: Face -> Polygon)
    requires IsI32(rel) && |d| <= I32_MAX && t <= I32_MAX && IsI32(rel + t)
    ensures |d| == 0 ==> Shapes(FaceRef(part, Some(Relative(rel))), d, Some(t), forehead).Err?
    ensures |d| > 0 ==>
      var idx := UsizeOfI32(TRem(rel + t, |d|));
      var r := Shapes(FaceRef(part, Some(Relative(rel))), d, Some(t), forehead);
      (r.Ok? <==> idx < |d|) && (idx < |d| ==> r == Ok([FaceShapeOf(part, d[idx], forehead)]))
  {
    I32UsizeRoundTrip(t);
    RelativeIndexSome(rel, t, |d|);
  }

  /** Seen from face `t`, the index is the truncated remainder of `rel + t`. */
  lemma RelativeIndexSome(rel: int, t: nat, len: nat)
    requires IsI32(rel) && len <= I32_MAX && I32OfUsize(t) == t && IsI32(rel + t)
    ensures len == 0 ==> RelativeIndex(rel, Some(t), len).Err?
    ensures len > 0 ==> RelativeIndex(rel, Some(t), len) == Ok(UsizeOfI32(TRem(rel + t, len)))
  {
  }

  /** For a negative dividend the truncated remainder is 0 exactly when the
      divisor divides it, and negative otherwise. */
  lemma NegativeRemainder(a: int, n: nat)
    requires n > 0
    ensures a < 0 ==> (TRem(a, n) == 0 <==> a % n == 0)
  {
    if a >= 0 { return; }
    var q := (-a) / n;
    var r := (-a) % n;
    assert -a == q * n + r;
    if r == 0 {
      assert a == (-q) * n + 0;
      ModUnique(a, n, -q, 0);
    } else {
      assert a == (-q - 1) * n + (n - r);
      ModUnique(a, n, -q - 1, n - r);
    }
  }

  /** Euclidean division has one quotient and remainder. */
  lemma ModUnique(a: int, n: int, q: int, r: int)
    requires n > 0 && 0 <= r < n && a == q * n + r
    ensures a % n == r
  {
    var q0, r0 := a / n, a % n;
    assert a == q0 * n + r0;
    assert (q - q0) * n == r0 - r;
    if q > q0 {
      MulAtLeast(q - q0, n);
    } else if q < q0 {
      MulAtLeast(q0 - q, n);
    }
  }

  lemma MulAtLeast(k: int, n: int)
    requires k >= 1 && n > 0
    ensures k * n >= n
  {
    assert k * n == (k - 1) * n + n;
  }

  // ---------------------------------------------------------------------
  // shape_ops_for_src_shape

  /** The ops one `CopyTo` destination adds: one copy per resolved shape
      (ids `{prefix}-{idx}-{sidx}`), or one copy to a rectangle literal (id
      `{prefix}-{idx}`). */
  function CopyOpsFor(prefix: string, src: S.Shape, other: Ast.Shape, idx: nat, d: Detection,
                      target: Option<nat>, forehead: Face -> Polygon): (r: Result<seq<T.ShapeOp>>)
    requires ValidShape(other) && |d| <= I32_MAX
    ensures r.Ok? ==> forall i :: 0 <= i < |r.value| ==>
      r.value[i].base == src && r.value[i].dest.Some? && r.value[i].swap.None?
    ensures other.RectShape? ==>
      r == Ok([T.Copy(prefix + "-" + NatToString(idx), src, S.RectShape(other.rect))])
  {
    match other
    case FaceShape(fr) =>
      var ss :- Shapes(fr, d, target, forehead);
      Ok(seq(|ss|, sidx requires 0 <= sidx < |ss| =>
        T.Copy(prefix + "-" + NatToString(idx) + "-" + NatToString(sidx), src, ss[sidx])))
    case RectShape(r) =>
      Ok([T.Copy(prefix + "-" + NatToString(idx), src, S.RectShape(r))])
  }

  /** All of a `CopyTo`'s destinations from position `from` on, in order. */
  function CopyOps(prefix: string, src: S.Shape, others: seq<Ast.Shape>, from: nat, d: Detection,
                   target: Option<nat>, forehead: Face -> Polygon): (r: Result<seq<T.ShapeOp>>)
    requires from <= |others| && |d| <= I32_MAX
    requires forall i :: 0 <= i < |others| ==> ValidShape(others[i])
    ensures r.Ok? ==> forall i :: 0 <= i < |r.value| ==>
      r.value[i].base == src && r.value[i].dest.Some? && r.value[i].swap.None?
    decreases |others| - from
  {
    if from == |others| then Ok([])
    else
      var here :- CopyOpsFor(prefix, src, others[from], from, d, target, forehead);
      var rest :- CopyOps(prefix, src, others, from + 1, d, target, forehead);
      Ok(here + rest)
  }

  /** The ops a `SwapWith` adds: one swap per resolved shape (ids
      `{prefix}-{sidx}`), or one swap with a rectangle literal (id
      `{prefix}-rect`). */
  function SwapOps(prefix: string, src: S.Shape, other: Ast.Shape, d: Detection,
                   target: Option<nat>, forehead: Face -> Polygon): (r: Result<seq<T.ShapeOp>>)
    requires ValidShape(other) && |d| <= I32_MAX
    ensures r.Ok? ==> forall i :: 0 <= i < |r.value| ==>
      r.value[i].base == src && r.value[i].swap.Some? && r.value[i].dest.None?
    ensures other.RectShape? ==> r == Ok([T.Swap(prefix + "-rect", src, S.RectShape(other.rect))])
  {
    match other
    case FaceShape(fr) =>
      var ss :- Shapes(fr, d, target, forehead);
      Ok(seq(|ss|, sidx requires 0 <= sidx < |ss| => T.Swap(prefix + "-" + NatToString(sidx), src, ss[sidx])))
    case RectShape(r) =>
      Ok([T.Swap(prefix + "-rect", src, S.RectShape(r))])
  }

  /** The ops one operation contributes; only `CopyTo` and `SwapWith`
      contribute any. */
  function OpsFor(prefix: string, src: S.Shape, o: Operation, d: Detection,
                  target: Option<nat>, forehead: Face -> Polygon): (r: Result<seq<T.ShapeOp>>)
    requires ValidOp(o) && |d| <= I32_MAX
    ensures !o.CopyTo? && !o.SwapWith? ==> r == Ok([])
    ensures r.Ok? ==> forall i :: 0 <= i < |r.value| ==>
      r.value[i].base == src && (r.value[i].swap.Some? || r.value[i].dest.Some?)
  {
    match o
    case CopyTo(others) => CopyOps(prefix, src, others, 0, d, target, forehead)
    case SwapWith(other) => SwapOps(prefix, src, other, d, target, forehead)
    case _ => Ok([])
  }

  /** The ops of `ops[from..]`, concatenated in operation order; the first
      panic aborts. */
  function CollectOps(prefix: string, src: S.Shape, ops: seq<Operation>, from: nat, d: Detection,
                      target: Option<nat>, forehead: Face -> Polygon): (r: Result<seq<T.ShapeOp>>)
    requires from <= |ops| && |d| <= I32_MAX
    requires forall i :: 0 <= i < |ops| ==> ValidOp(ops[i])
    ensures r.Ok? ==> forall i :: 0 <= i < |r.value| ==>
      r.value[i].base == src && (r.value[i].swap.Some? || r.value[i].dest.Some?)
    decreases |ops| - from
  {
    if from == |ops| then Ok([])
    else
      var here :- OpsFor(prefix, src, ops[from], d, target, forehead);
      var rest :- CollectOps(prefix, src, ops, from + 1, d, target, forehead);
      Ok(here + rest)
  }

  predicate IsPerFrameOp(o: Operation) {
    o.CopyTo? || o.SwapWith?
  }

  /** Without `CopyTo` and `SwapWith`, no ops are collected. */
  lemma {:induction false} CollectNothing(prefix: string, src: S.Shape, ops: seq<Operation>, from: nat, d: Detection,
                                          target: Option<nat>, forehead: Face -> Polygon)
    requires from <= |ops| && |d| <= I32_MAX
    requires forall i :: 0 <= i < |ops| ==> ValidOp(ops[i]) && !IsPerFrameOp(ops[i])
    ensures CollectOps(prefix, src, ops, from, d, target, forehead) == Ok([])
    decreases |ops| - from
  {
    if from < |ops| {
      CollectNothing(prefix, src, ops, from + 1, d, target, forehead);
      assert OpsFor(prefix, src, ops[from], d, target, forehead) == Ok([]);
      var none: seq<T.ShapeOp> := [];
      assert none + none == none;
    }
  }

  /** `shape_ops_for_src_shape`: the copy and swap ops of the statement's
      operations, or a single op drawing `src` onto itself when there are
      none. It is never empty, and every op reads from `src`. */
  function ShapeOpsForSrcShape(prefix: string, src: S.Shape, ops: seq<Operation>, d: Detection,
                               target: Option<nat>, forehead: Face -> Polygon): (r: Result<seq<T.ShapeOp>>)
    requires |d| <= I32_MAX
    requires forall i :: 0 <= i < |ops| ==> ValidOp(ops[i])
    ensures r.Ok? ==> |r.value| >= 1
    ensures r.Ok? ==> forall i :: 0 <= i < |r.value| ==> r.value[i].base == src
    ensures r.Ok? && |r.value| == 1 && r.value[0].swap.None? && r.value[0].dest.None? ==>
      r.value[0] == T.OnShape(prefix, src)
  {
    var sops :- CollectOps(prefix, src, ops, 0, d, target, forehead);
    if |sops| == 0 then Ok([T.OnShape(prefix, src)]) else Ok(sops)
  }

  /** A statement without `CopyTo` or `SwapWith` yields exactly one op that
      draws its source onto itself, under the prefix as id. */
  lemma OnlyOnShape(prefix: string, src: S.Shape, ops: seq<Operation>, d: Detection,
                    target: Option<nat>, forehead: Face -> Polygon)
    requires |d| <= I32_MAX
    requires forall i :: 0 <= i < |ops| ==> ValidOp(ops[i]) && !IsPerFrameOp(ops[i])
    ensures ShapeOpsForSrcShape(prefix, src, ops, d, target, forehead) == Ok([T.OnShape(prefix, src)])
  {
    CollectNothing(prefix, src, ops, 0, d, target, forehead);
  }

  /** A single `SwapWith` whose reference resolves to `n >= 1` shapes gives
      `n` swaps with those shapes, in order. */
  lemma SwapCounts(prefix: string, src: S.Shape, fr: FaceRef, d: Detection,
                   target: Option<nat>, forehead: Face -> Polygon)
    requires ValidRef(fr) && |d| <= I32_MAX
    ensures var ss := Shapes(fr, d, target, forehead);
      var r := ShapeOpsForSrcShape(prefix, src, [SwapWith(FaceShape(fr))], d, target, forehead);
      ss.Ok? && |ss.value| > 0 ==>
        r.Ok? && |r.value| == |ss.value| &&
        forall i :: 0 <= i < |r.value| ==> r.value[i].swap == Some(ss.value[i])
  {
    var ops := [SwapWith(FaceShape(fr))];
    assert CollectOps(prefix, src, ops, 1, d, target, forehead) == Ok([]);
    var sw := SwapOps(prefix, src, FaceShape(fr), d, target, forehead);
    if sw.Ok? {
      assert CollectOps(prefix, src, ops, 0, d, target, forehead) == Ok(sw.value + []);
      assert sw.value + [] == sw.value;
    }
  }

  /** A `CopyTo` of rectangle literals gives one copy per literal, in
      order. */
  lemma CopyCounts(prefix: string, src: S.Shape, rects: seq<Ast.Shape>, d: Detection,
                   target: Option<nat>, forehead: Face -> Polygon)
    requires |d| <= I32_MAX
    requires |rects| > 0 && forall i :: 0 <= i < |rects| ==> rects[i].RectShape?
    ensures var r := ShapeOpsForSrcShape(prefix, src, [CopyTo(rects)], d, target, forehead);
      r.Ok? && |r.value| == |rects| &&
      forall i :: 0 <= i < |rects| ==> r.value[i].dest == Some(S.RectShape(rects[i].rect))
  {
    CopyRects(prefix, src, rects, 0, d, target, forehead);
    var cops := [CopyTo(rects)];
    assert CollectOps(prefix, src, cops, 1, d, target, forehead) == Ok([]);
    var c := CopyOps(prefix, src, rects, 0, d, target, forehead);
    assert CollectOps(prefix, src, cops, 0, d, target, forehead) == Ok(c.value + []);
    assert c.value + [] == c.value;
  }

  lemma {:induction false} CopyRects(prefix: string, src: S.Shape, rects: seq<Ast.Shape>, from: nat, d: Detection,
                                     target: Option<nat>, forehead: Face -> Polygon)
    requires from <= |rects| && |d| <= I32_MAX
    requires forall i :: 0 <= i < |rects| ==> rects[i].RectShape?
    ensures var r := CopyOps(prefix, src, rects, from, d, target, forehead);
      r.Ok? && |r.value| == |rects| - from &&
      forall i :: 0 <= i < |r.value| ==> r.value[i].dest == Some(S.RectShape(rects[from + i].rect))
    decreases |rects| - from
  {
    if from < |rects| {
      CopyRects(prefix, src, rects, from + 1, d, target, forehead);
      var here := CopyOpsFor(prefix, src, rects[from], from, d, target, forehead);
      var rest := CopyOps(prefix, src, rects, from + 1, d, target, forehead);
      assert here.Ok? && |here.value| == 1 && here.value[0].dest == Some(S.RectShape(rects[from].rect));
      assert CopyOps(prefix, src, rects, from, d, target, forehead) == Ok(here.value + rest.value);
    }
  }

  // ---------------------------------------------------------------------
  // shape_ops

  /** The target face number handed to the ops of face `idx`: `idx` itself,
      or, for a relative source, `(idx as i32 - rel) % len` cast to
      `usize`. */
  function PerFaceTarget(rel: Option<int>, idx: nat, len: nat): (r: Result<nat>)
    requires idx < len <= I32_MAX
    requires rel.Some? ==> IsI32(rel.value)
    ensures rel.None? ==> r == Ok(idx)
    ensures rel.Some? ==> (r.Ok? <==> IsI32(idx - rel.value))
    ensures rel.Some? && r.Ok? && idx - rel.value >= 0 ==> r.value == (idx - rel.value) % len
    ensures rel.Some? && r.Ok? && idx - rel.value < 0 ==>
      (r.value < len <==> (idx - rel.value) % len == 0)
  {
    match rel
    case None => Ok(idx)
    case Some(rl) =>
      assert I32OfUsize(idx) == idx;
      var diff :- CheckedI32(idx - rl);
      NegativeRemainder(diff, len);
      Ok(UsizeOfI32(TRem(diff, len)))
  }

  /** The ops of every face from `from` on, with ids `{prefix}-{idx}`. */
  function PerFace(prefix: string, part: FacePart, rel: Option<int>, ops: seq<Operation>, d: Detection,
                   from: nat, forehead: Face -> Polygon): (r: Result<seq<T.ShapeOp>>)
    requires from <= |d| <= I32_MAX
    requires rel.Some? ==> IsI32(rel.value)
    requires forall i :: 0 <= i < |ops| ==> ValidOp(ops[i])
    ensures r.Ok? ==> |r.value| >= |d| - from
    decreases |d| - from
  {
    if from == |d| then Ok([])
    else
      var target :- PerFaceTarget(rel, from, |d|);
      var here :- ShapeOpsForSrcShape(prefix + "-" + NatToString(from), FaceShapeOf(part, d[from], forehead),
                                      ops, d, Some(target), forehead);
      var rest :- PerFace(prefix, part, rel, ops, d, from + 1, forehead);
      Ok(here + rest)
  }

  /** `shape_ops`: a rectangle literal is resolved with no target face; an
      absolute face number with that face as target (nothing when there is
      no such face); otherwise every face in turn. */
  function ShapeOps(prefix: string, cmd: Ast.Transform, d: Detection, forehead: Face -> Polygon): (r: Result<seq<T.ShapeOp>>)
    requires ValidCmd(cmd) && |d| <= I32_MAX
    ensures cmd.shape.RectShape? ==>
      r == ShapeOpsForSrcShape(prefix, S.RectShape(cmd.shape.rect), cmd.operations, d, None, forehead)
    ensures cmd.shape.RectShape? && r.Ok? ==> |r.value| >= 1
    ensures cmd.shape.FaceShape? && |d| == 0 ==> r == Ok([])
    ensures cmd.shape.FaceShape? && cmd.shape.faceRef.faceIdx.Some? && cmd.shape.faceRef.faceIdx.value.Absolute? ==>
      var n := cmd.shape.faceRef.faceIdx.value.abs;
      (n >= |d| ==> r == Ok([])) &&
      (n < |d| ==> r == ShapeOpsForSrcShape(prefix, FaceShapeOf(cmd.shape.faceRef.part, d[n], forehead),
                                            cmd.operations, d, Some(n), forehead))
    ensures (cmd.shape.FaceShape? && (cmd.shape.faceRef.faceIdx.None? || cmd.shape.faceRef.faceIdx.value.Relative?) &&
      r.Ok?) ==> |r.value| >= |d|
  {
    match cmd.shape
    case RectShape(rect) => ShapeOpsForSrcShape(prefix, S.RectShape(rect), cmd.operations, d, None, forehead)
    case FaceShape(fr) =>
      match fr.faceIdx
      case Some(Absolute(abs)) =>
        if abs < |d| then
          ShapeOpsForSrcShape(prefix, FaceShapeOf(fr.part, d[abs], forehead), cmd.operations, d, Some(abs), forehead)
        else Ok([])
      case Some(Relative(rel)) => PerFace(prefix, fr.part, Some(rel), cmd.operations, d, 0, forehead)
      case None => PerFace(prefix, fr.part, None, cmd.operations, d, 0, forehead)
  }

  /** One op per face from `from` on, drawing that face's part onto
      itself under the id `{prefix}-{face}`. */
  function OnShapeEach(prefix: string, part: FacePart, d: Detection, from: nat, forehead: Face -> Polygon): (r: seq<T.ShapeOp>)
    requires from <= |d|
    ensures |r| == |d| - from
    ensures forall i :: 0 <= i < |r| ==>
      r[i] == T.OnShape(prefix + "-" + NatToString(from + i), FaceShapeOf(part, d[from + i], forehead))
    decreases |d| - from
  {
    if from == |d| then []
    else
      var here := T.OnShape(prefix + "-" + NatToString(from), FaceShapeOf(part, d[from], forehead));
      [here] + OnShapeEach(prefix, part, d, from + 1, forehead)
  }

  /** A statement on every face with only shape-agnostic operations yields,
      face by face in detection order, one op with id `{prefix}-{face}`
      drawing that face's part onto itself. */
  lemma {:induction false} EveryFaceOnShape(prefix: string, part: FacePart, ops: seq<Operation>, d: Detection,
                                            from: nat, forehead: Face -> Polygon)
    requires from <= |d| <= I32_MAX
    requires forall i :: 0 <= i < |ops| ==> ValidOp(ops[i]) && !IsPerFrameOp(ops[i])
    ensures PerFace(prefix, part, None, ops, d, from, forehead) == Ok(OnShapeEach(prefix, part, d, from, forehead))
    decreases |d| - from
  {
    if from < |d| {
      EveryFaceOnShape(prefix, part, ops, d, from + 1, forehead);
      var src := FaceShapeOf(part, d[from], forehead);
      OnlyOnShape(prefix + "-" + NatToString(from), src, ops, d, Some(from), forehead);
      assert PerFaceTarget(None, from, |d|) == Ok(from);
    }
  }

  // ---------------------------------------------------------------------
  // Building

  /** One operation's shape-agnostic effect; `CopyTo` and `SwapWith` are
      left for the per-frame resolution. */
  function ApplyOne(t: T.Transform, o: Operation): (r: T.Transform)
    ensures IsPerFrameOp(o) ==> r == t
    ensures r.cache == t.cache
  {
    match o
    case Brightness(b) => T.SetBrightness(t, b)
    case Chans(r, g, b) => T.SetChans(t, r, g, b)
    case Drift(v, a) => T.SetDrift(t, v, a)
    case Flip(v) => T.SetFlip(t, v)
    case Rotate(r) => T.SetRotDegrees(t, r)
    case Saturation(s) => T.SetSaturation(t, s)
    case Scale(s) => T.SetScale(t, s)
    case Spin(v) => T.SetSpin(t, v)
    case Tile => T.SetTiling(t, true)
    case Translate(x, y) => T.TranslateBy(t, x, y)
    case CopyTo(_) => t
    case SwapWith(_) => t
  }

  /** `apply_shape_agnostic_operations`: the operations applied in order. */
  function ApplyShapeAgnostic(t: T.Transform, ops: seq<Operation>): (r: T.Transform)
    ensures r.cache == t.cache
    decreases |ops|
  {
    if |ops| == 0 then t else ApplyShapeAgnostic(ApplyOne(t, ops[0]), ops[1..])
  }

  /** Applying a list and then one more operation is applying the extended
      list: operations take effect in order, so a later one overrides an
      earlier one on the same field. */
  lemma {:induction false} ApplySnoc(t: T.Transform, ops: seq<Operation>, o: Operation)
    ensures ApplyShapeAgnostic(t, ops + [o]) == ApplyOne(ApplyShapeAgnostic(t, ops), o)
    decreases |ops|
  {
    if |ops| == 0 {
      assert [o][1..] == [];
    } else {
      assert (ops + [o])[1..] == ops[1..] + [o];
      ApplySnoc(ApplyOne(t, ops[0]), ops[1..], o);
    }
  }

  /** The operations kept at build time, in order. */
  function ShapeAgnostic(ops: seq<Operation>): (r: seq<Operation>)
    ensures forall i :: 0 <= i < |r| ==> !IsPerFrameOp(r[i])
    ensures |r| <= |ops|
  {
    if |ops| == 0 then []
    else if IsPerFrameOp(ops[0]) then ShapeAgnostic(ops[1..])
    else [ops[0]] + ShapeAgnostic(ops[1..])
  }

  /** `CopyTo` and `SwapWith` have no effect at build time. */
  lemma {:induction false} PerFrameOpsIgnored(t: T.Transform, ops: seq<Operation>)
    ensures ApplyShapeAgnostic(t, ops) == ApplyShapeAgnostic(t, ShapeAgnostic(ops))
    decreases |ops|
  {
    if |ops| > 0 {
      PerFrameOpsIgnored(ApplyOne(t, ops[0]), ops[1..]);
      if !IsPerFrameOp(ops[0]) {
        assert ([ops[0]] + ShapeAgnostic(ops[1..]))[1..] == ShapeAgnostic(ops[1..]);
      }
    }
  }

  /** `build_transform`: a new transform with the statement's
      shape-agnostic operations applied. */
  function BuildTransform(cmd: Ast.Transform): (t: T.Transform)
    ensures t.cache == map[]
  {
    ApplyShapeAgnostic(T.New(), cmd.operations)
  }

  /** A statement with a single `scale` gets that scale and is otherwise
      as new; one with only copies and swaps is exactly a new transform. */
  lemma BuildExamples(cmd: Ast.Transform, f: real)
    ensures cmd.operations == [Scale(f)] ==> BuildTransform(cmd) == T.New().(scale := f)
    ensures (forall i :: 0 <= i < |cmd.operations| ==> IsPerFrameOp(cmd.operations[i])) ==>
      BuildTransform(cmd) == T.New()
  {
    if forall i :: 0 <= i < |cmd.operations| ==> IsPerFrameOp(cmd.operations[i]) {
      PerFrameOpsIgnored(T.New(), cmd.operations);
      AllPerFrame(cmd.operations);
    }
    if cmd.operations == [Scale(f)] {
      assert cmd.operations[1..] == [];
      assert BuildTransform(cmd) == ApplyShapeAgnostic(ApplyOne(T.New(), Scale(f)), []);
    }
  }

  lemma {:induction false} AllPerFrame(ops: seq<Operation>)
    requires forall i :: 0 <= i < |ops| ==> IsPerFrameOp(ops[i])
    ensures ShapeAgnostic(ops) == []
    decreases |ops|
  {
    if |ops| > 0 {
      AllPerFrame(ops[1..]);
    }
  }

  datatype Interpreter = Interpreter(transforms: seq<(T.Transform, Ast.Transform)>)

  /** `Interpreter::new`: one built transform per statement, paired with
      the statement, in source order. */
  function New(statements: seq<Statement>): (r: Interpreter)
    ensures |r.transforms| == |statements|
    ensures forall i :: 0 <= i < |statements| ==>
      r.transforms[i].1 == statements[i].transform && r.transforms[i].0 == BuildTransform(statements[i].transform)
  {
    Interpreter(seq(|statements|, i requires 0 <= i < |statements| =>
      (BuildTransform(statements[i].transform), statements[i].transform)))
  }

  // ---------------------------------------------------------------------
  // execute

  /** A frame's inputs: the detected faces, the missing `forehead` feature,
      the transform environment, and which statements' time checks fail. */
  datatype Frame = Frame(
    detection: Detection,
    forehead: Face -> Polygon,
    env: T.Env,
    timedOut: nat -> bool)

  predicate ValidInterpreter(it: Interpreter) {
    forall i :: 0 <= i < |it.transforms| ==> ValidCmd(it.transforms[i].1)
  }

  /** The first statement at or after `from` whose time check fails, or `n`. */
  function Cutoff(timedOut: nat -> bool, from: nat, n: nat): (k: nat)
    requires from <= n
    ensures from <= k <= n
    ensures forall j :: from <= j < k ==> !timedOut(j)
    ensures k < n ==> timedOut(k)
    decreases n - from
  {
    if from == n || timedOut(from) then from else Cutoff(timedOut, from + 1, n)
  }

  /** Statement `idx`'s turn: its ops resolved, and the transform executed
      (one render pass) only when there are any. */
  function StepStmt(entry: (T.Transform, Ast.Transform), idx: nat, f: Frame):
    (r: Result<((T.Transform, Ast.Transform), seq<T.Pass>)>)
    requires ValidCmd(entry.1) && |f.detection| <= I32_MAX
    ensures r.Ok? ==> r.value.0.1 == entry.1 && |r.value.1| <= 1
    ensures r.Ok? ==> (r.value.0.0 == entry.0 <== |r.value.1| == 0)
  {
    var ops :- ShapeOps(NatToString(idx), entry.1, f.detection, f.forehead);
    if |ops| > 0 then
      var t := entry.0;
      var run := T.RunOps(t, t.cache, ops, f.env);
      Ok(((t.(cache := run.0), entry.1), [T.Pass(run.1, t.brightnessMod, t.saturationMod, t.chansMod)]))
    else Ok((entry, []))
  }

  /** When no check from `from` on fails, nothing is cut off. */
  lemma {:induction false} CutoffWithoutTimeouts(timedOut: nat -> bool, from: nat, n: nat)
    requires from <= n
    requires forall j :: from <= j < n ==> !timedOut(j)
    ensures Cutoff(timedOut, from, n) == n
    decreases n - from
  {
    if from < n {
      CutoffWithoutTimeouts(timedOut, from + 1, n);
    }
  }

  /** Every statement before `m` resolves without a panic. */
  predicate OkUpTo(it: Interpreter, f: Frame, m: nat)
    requires ValidInterpreter(it) && |f.detection| <= I32_MAX && m <= |it.transforms|
  {
    forall i :: 0 <= i < m ==> StepStmt(it.transforms[i], i, f).Ok?
  }

  /** The render passes of statement `i`, when it resolves. */
  function PassesAt(it: Interpreter, f: Frame, i: nat): (ps: seq<T.Pass>)
    requires ValidInterpreter(it) && |f.detection| <= I32_MAX && i < |it.transforms|
    ensures |ps| <= 1
  {
    var step := StepStmt(it.transforms[i], i, f);
    if step.Ok? then step.value.1 else []
  }

  /** The passes of the statements before `m`, in statement order. */
  function Passes(it: Interpreter, f: Frame, m: nat): (ps: seq<T.Pass>)
    requires ValidInterpreter(it) && |f.detection| <= I32_MAX && m <= |it.transforms|
    ensures |ps| <= m
    decreases m
  {
    if m == 0 then [] else Passes(it, f, m - 1) + PassesAt(it, f, m - 1)
  }

  /** The state after the statements before `m`: each of them updated by
      its turn, the rest as they were, and their passes in order. */
  predicate Done(it: Interpreter, f: Frame, m: nat, ts: seq<(T.Transform, Ast.Transform)>, passes: seq<T.Pass>)
    requires ValidInterpreter(it) && |f.detection| <= I32_MAX && m <= |it.transforms|
  {
    |ts| == |it.transforms| &&
    OkUpTo(it, f, m) &&
    (forall i :: 0 <= i < m ==> ts[i] == StepStmt(it.transforms[i], i, f).value.0) &&
    (forall i :: m <= i < |ts| ==> ts[i] == it.transforms[i]) &&
    passes == Passes(it, f, m)
  }

  /** One more statement's turn extends the state. */
  lemma DoneStep(it: Interpreter, f: Frame, m: nat, ts: seq<(T.Transform, Ast.Transform)>, passes: seq<T.Pass>,
                 entry: (T.Transform, Ast.Transform), ps: seq<T.Pass>)
    requires ValidInterpreter(it) && |f.detection| <= I32_MAX && m < |it.transforms|
    requires Done(it, f, m, ts, passes)
    requires StepStmt(it.transforms[m], m, f) == Ok((entry, ps))
    ensures Done(it, f, m + 1, ts[m := entry], passes + ps)
  {
    OkUpToStep(it, f, m, entry, ps);
    EntriesStep(it, f, m, ts, entry, ps);
    UpdateKeepsLater(ts, it.transforms, m, entry);
    PassesStep(it, f, m, entry, ps);
  }

  lemma OkUpToStep(it: Interpreter, f: Frame, m: nat, entry: (T.Transform, Ast.Transform), ps: seq<T.Pass>)
    requires ValidInterpreter(it) && |f.detection| <= I32_MAX && m < |it.transforms|
    requires OkUpTo(it, f, m) && StepStmt(it.transforms[m], m, f) == Ok((entry, ps))
    ensures OkUpTo(it, f, m + 1)
  {
  }

  lemma EntriesStep(it: Interpreter, f: Frame, m: nat, ts: seq<(T.Transform, Ast.Transform)>,
                    entry: (T.Transform, Ast.Transform), ps: seq<T.Pass>)
    requires ValidInterpreter(it) && |f.detection| <= I32_MAX && m < |it.transforms| == |ts|
    requires forall i :: 0 <= i < m ==> StepStmt(it.transforms[i], i, f).Ok? && ts[i] == StepStmt(it.transforms[i], i, f).value.0
    requires StepStmt(it.transforms[m], m, f) == Ok((entry, ps))
    ensures forall i :: 0 <= i < m + 1 ==> StepStmt(it.transforms[i], i, f).Ok? && ts[m := entry][i] == StepStmt(it.transforms[i], i, f).value.0
  {
    forall i | 0 <= i < m + 1
      ensures StepStmt(it.transforms[i], i, f).Ok? && ts[m := entry][i] == StepStmt(it.transforms[i], i, f).value.0
    {
      if i < m {
        assert ts[m := entry][i] == ts[i];
      }
    }
  }

  /** Updating entry `m` leaves the entries after it alone. */
  lemma UpdateKeepsLater<E>(ts: seq<E>, orig: seq<E>, m: nat, entry: E)
    requires m < |ts| == |orig|
    requires forall i :: m <= i < |ts| ==> ts[i] == orig[i]
    ensures forall i :: m + 1 <= i < |ts| ==> ts[m := entry][i] == orig[i]
  {
  }

  lemma PassesStep(it: Interpreter, f: Frame, m: nat, entry: (T.Transform, Ast.Transform), ps: seq<T.Pass>)
    requires ValidInterpreter(it) && |f.detection| <= I32_MAX && m < |it.transforms|
    requires StepStmt(it.transforms[m], m, f) == Ok((entry, ps))
    ensures Passes(it, f, m + 1) == Passes(it, f, m) + ps
  {
  }

  /** A statement's turn, once its ops are resolved. */
  lemma StepOfOps(entry: (T.Transform, Ast.Transform), idx: nat, f: Frame, ops: seq<T.ShapeOp>)
    requires ValidCmd(entry.1) && |f.detection| <= I32_MAX
    requires ShapeOps(NatToString(idx), entry.1, f.detection, f.forehead) == Ok(ops)
    ensures |ops| == 0 ==> StepStmt(entry, idx, f) == Ok((entry, []))
    ensures |ops| > 0 ==>
      var run := T.RunOps(entry.0, entry.0.cache, ops, f.env);
      StepStmt(entry, idx, f) == Ok(((entry.0.(cache := run.0), entry.1),
        [T.Pass(run.1, entry.0.brightnessMod, entry.0.saturationMod, entry.0.chansMod)]))
  {
  }

  /** A statement before the cutoff passes its time check, so the next one
      is still at or before the cutoff. */
  lemma BeforeCutoff(timedOut: nat -> bool, n: nat, idx: nat)
    requires idx <= Cutoff(timedOut, 0, n) && idx < n && !timedOut(idx)
    ensures idx + 1 <= Cutoff(timedOut, 0, n)
  {
  }

  /** Where the loop stops, at the end or at a failed check, is the cutoff. */
  lemma AtCutoff(timedOut: nat -> bool, n: nat, idx: nat)
    requires idx <= Cutoff(timedOut, 0, n) && (idx == n || timedOut(idx))
    ensures idx == Cutoff(timedOut, 0, n)
  {
  }

  /** `Interpreter::execute`: the statements in order, each first checking
      the time budget. On the first failed check the frame so far is
      returned and later statements are left as they were; a statement
      whose resolution panics aborts the frame. The result is the updated
      interpreter and the render passes applied to the input frame. */
  method Execute(it: Interpreter, f: Frame) returns (r: Result<(Interpreter, seq<T.Pass>)>)
    requires ValidInterpreter(it) && |f.detection| <= I32_MAX
    ensures r.Ok? <==> OkUpTo(it, f, Cutoff(f.timedOut, 0, |it.transforms|))
    ensures r.Ok? ==> Done(it, f, Cutoff(f.timedOut, 0, |it.transforms|), r.value.0.transforms, r.value.1)
  {
    var n := |it.transforms|;
    var k := Cutoff(f.timedOut, 0, n);
    var ts := it.transforms;
    var passes: seq<T.Pass> := [];
    var idx := 0;
    while idx < n && !f.timedOut(idx)
      invariant 0 <= idx <= k
      invariant Done(it, f, idx, ts, passes)
    {
      BeforeCutoff(f.timedOut, n, idx);
      var entry := ts[idx];
      var ops := ShapeOps(NatToString(idx), entry.1, f.detection, f.forehead);
      if ops.Err? {
        assert StepStmt(it.transforms[idx], idx, f).Err?;
        return Err(ops.msg);
      }
      StepOfOps(entry, idx, f, ops.value);
      if |ops.value| > 0 {
        var t', pass := T.Execute(entry.0, ops.value, f.env);
        DoneStep(it, f, idx, ts, passes, (t', entry.1), [pass]);
        ts := ts[idx := (t', entry.1)];
        passes := passes + [pass];
      } else {
        DoneStep(it, f, idx, ts, passes, entry, []);
        ts := ts[idx := entry];
        passes := passes + [];
      }
      idx := idx + 1;
    }
    AtCutoff(f.timedOut, n, idx);
    r := Ok((Interpreter(ts), passes));
  }
}
