/** The interpreter of the earlier code generation (src/lang.rs): statements
    become transforms per frame, built afresh or taken from the previous
    frame's cache by id, and run in order until the time budget runs out.

    Its `Transform` calls (`new(shape, id)`, `set_shape`, `write_to`,
    `translate_by`, `set_drift`, …) are not defined in src/transform.rs,
    so a built transform is modelled as the log of those calls: its id, the
    shape it was created with, and every setter applied since, in order.
    Its AST is the one src/lang.rs uses (src/lang/ast.rs lags behind it).
    Rendering is the list of transforms executed, in execution order. */
module Live {

  import opened Wrappers
  import opened Text
  import opened ImgGeom
  import SatRect
  import OldShape
  import OldTransform
  import Triangles

  // ---------------------------------------------------------------------
  // Syntax and detection

  datatype FacePart = LEye | REye | LEyeRegion | REyeRegion | Face | Mouth | Nose

  datatype FaceRef = FaceRef(part: FacePart, faceIdx: Option<nat>)

  /** The derived `Debug` text of a part: its variant name. */
  function PartDebug(p: FacePart): (s: string)
    ensures |s| > 0
  {
    match p
    case LEye => "LEye"
    case REye => "REye"
    case LEyeRegion => "LEyeRegion"
    case REyeRegion => "REyeRegion"
    case Face => "Face"
    case Mouth => "Mouth"
    case Nose => "Nose"
  }

  /** The derived `Debug` text of a face reference, as `{fr:?}` prints it:
      `FaceRef { part: LEye, face_idx: Some(2) }`. */
  function FaceRefDebug(fr: FaceRef): (s: string)
    ensures |s| > 0
  {
    "FaceRef { part: " + PartDebug(fr.part) + ", face_idx: " +
    (match fr.faceIdx
     case None => "None"
     case Some(i) => "Some(" + NatToString(i) + ")") + " }"
  }

  datatype Shape = FaceShape(faceRef: FaceRef) | RectShape(rect: SatRect.Rect)

  datatype Operation =
    | Tile
    | Scale(s: real)
    | Rotate(deg: real)
    | WriteTo(others: seq<Shape>)
    | CopyTo(others: seq<Shape>)
    | SwapWith(other: Shape)
    | Translate(dx: int, dy: int)
    | Flip(v: OldTransform.FlipVariant)
    | Drift(velocity: real, angle: real)
    | Spin(velocity: real)
    | Brightness(b: real)
    | Saturation(s: real)
    | Chans(r: real, g: real, b: real)

  datatype TransformStmt = TransformStmt(shape: Shape, operations: seq<Operation>)

  datatype Statement = Transform(t: TransformStmt) | Clear(idxs: seq<nat>)

  /** A detected face of src/pipeline.rs, without its debugging landmarks. */
  datatype Face = Face(face: Polygon, mouth: Polygon, nose: Polygon, lEye: Polygon,
                       lEyeRegion: Polygon, rEye: Polygon, rEyeRegion: Polygon)

  type Detection = seq<Face>

  // ---------------------------------------------------------------------
  // Built transforms

  /** A setter call made on a transform. */
  datatype Call =
    | SetShape(shape: OldShape.Shape)
    | SetTiling(on: bool)
    | SetScale(s: real)
    | SetRotDegrees(deg: real)
    | WriteToShapes(shapes: seq<OldShape.Shape>)
    | CopyToShapes(shapes: seq<OldShape.Shape>)
    | SwapWithShape(shape: OldShape.Shape)
    | TranslateBy(dx: int, dy: int)
    | SetFlip(v: OldTransform.FlipVariant)
    | SetDrift(velocity: real, angle: real)
    | SetSpin(velocity: real)
    | SetBrightness(b: real)
    | SetSaturation(s: real)
    | SetChans(r: real, g: real, b: real)

  /** A transform's cache key. The source keys its cache by the formatted
      string `rect-{stmt}` or `face-{face}-{stmt}`; the model keeps the two
      numbers, and `IdStringInjective` shows that the formatting keeps
      distinct keys distinct, so both keyings store the same entries. */
  datatype TransformId = RectId(stmt: nat) | FaceId(face: nat, stmt: nat)

  datatype LiveTransform = LiveTransform(id: TransformId, created: OldShape.Shape, calls: seq<Call>)

  type TransformCache = map<TransformId, LiveTransform>

  /** Every cached transform is stored under its own id. */
  predicate KeyedById(cache: TransformCache) {
    forall id :: id in cache ==> cache[id].id == id
  }

  datatype Interpreter = Interpreter(statements: seq<Statement>, transforms: TransformCache)

  /** `Interpreter::new`: the statements verbatim and an empty cache. */
  function New(statements: seq<Statement>): (it: Interpreter)
    ensures it.statements == statements && |it.transforms| == 0
  {
    Interpreter(statements, map[])
  }

  /** The id's string as the source formats it. */
  function IdString(id: TransformId): (s: string)
    ensures |s| > 5
    ensures id.RectId? ==> s[..5] == "rect-" && s[5..] == NatToString(id.stmt)
    ensures id.FaceId? ==> s[..5] == "face-" && s[5..] == NatToString(id.face) + ['-'] + NatToString(id.stmt)
  {
    match id
    case RectId(stmt) => "rect-" + NatToString(stmt)
    case FaceId(face, stmt) => "face-" + NatToString(face) + "-" + NatToString(stmt)
  }

  /** `get_or_create_transform`: the cached transform under `id` is taken
      out of the cache and given the new shape; without one, a fresh
      transform is created. */
  function GetOrCreate(cache: TransformCache, id: TransformId, s: OldShape.Shape): (r: (LiveTransform, TransformCache))
    ensures r.0.id == (if id in cache then cache[id].id else id)
    ensures r.1 == cache - {id}
    ensures id in cache ==> r.0.created == cache[id].created && r.0.calls == cache[id].calls + [SetShape(s)]
    ensures id !in cache ==> r.0 == LiveTransform(id, s, [])
  {
    if id in cache then
      var t := cache[id];
      (t.(calls := t.calls + [SetShape(s)]), cache - {id})
    else
      (LiveTransform(id, s, []), cache)
  }

  // ---------------------------------------------------------------------
  // Shape resolution

  /** `face_shape`: the part's polygon as a point-list shape. */
  function FaceShapeOf(p: FacePart, f: Face): (s: OldShape.Shape)
    ensures s.NPoint?
  {
    OldShape.NPoint(
      match p
      case LEye => f.lEye
      case LEyeRegion => f.lEyeRegion
      case REye => f.rEye
      case REyeRegion => f.rEyeRegion
      case Face => f.face
      case Mouth => f.mouth
      case Nose => f.nose)
  }

  /** The face with the polygon of part `p` replaced by `x`. */
  function WithPart(f: Face, p: FacePart, x: Polygon): Face {
    match p
    case LEye => f.(lEye := x)
    case LEyeRegion => f.(lEyeRegion := x)
    case REye => f.(rEye := x)
    case REyeRegion => f.(rEyeRegion := x)
    case Face => f.(face := x)
    case Mouth => f.(mouth := x)
    case Nose => f.(nose := x)
  }

  /** A part resolves to its own polygon and to nothing else of the face:
      replacing that polygon changes the part's shape to the new one, and
      replacing another part's polygon leaves it alone. */
  lemma FaceShapeReadsItsPart(p: FacePart, q: FacePart, f: Face, x: Polygon)
    ensures FaceShapeOf(p, WithPart(f, p, x)) == OldShape.NPoint(x)
    ensures p != q ==> FaceShapeOf(q, WithPart(f, p, x)) == FaceShapeOf(q, f)
  {
  }

  /** The faces from index `i` on that pass the target filter: every face
      without a target, only the target face with one. The source compares
      faces by address; faces of one detection are distinct elements, so
      that is comparing their indices. */
  function MatchingFaces(p: FacePart, d: Detection, target: Option<nat>, i: nat): (r: seq<OldShape.Shape>)
    requires i <= |d|
    ensures target.None? ==> |r| == |d| - i && forall k :: 0 <= k < |r| ==> r[k] == FaceShapeOf(p, d[i + k])
    ensures target.Some? && i <= target.value < |d| ==> r == [FaceShapeOf(p, d[target.value])]
    ensures target.Some? && !(i <= target.value < |d|) ==> r == []
    decreases |d| - i
  {
    if i == |d| then []
    else
      var here := if target.None? || target.value == i then [FaceShapeOf(p, d[i])] else [];
      here + MatchingFaces(p, d, target, i + 1)
  }

  /** `shapes`: the shapes a face reference resolves to while building the
      transform for `target` (`None` when the statement's shape is a
      rectangle). With a target face, only that same face's part can be
      found, so references to other faces resolve to nothing. */
  function Shapes(fr: FaceRef, d: Detection, target: Option<nat>): (r: seq<OldShape.Shape>)
    requires target.Some? ==> target.value < |d|
    ensures fr.faceIdx.Some? ==>
      var i := fr.faceIdx.value;
      r == (if i < |d| && (target.None? || target.value == i) then [FaceShapeOf(fr.part, d[i])] else [])
    ensures fr.faceIdx.None? && target.Some? ==> r == [FaceShapeOf(fr.part, d[target.value])]
    ensures fr.faceIdx.None? && target.None? ==>
      |r| == |d| && forall k :: 0 <= k < |r| ==> r[k] == FaceShapeOf(fr.part, d[k])
  {
    match fr.faceIdx
    case Some(i) =>
      if i < |d| then
        match target
        case Some(t) => if t == i then [FaceShapeOf(fr.part, d[i])] else []
        case None => [FaceShapeOf(fr.part, d[i])]
      else []
    case None => MatchingFaces(fr.part, d, target, 0)
  }

  /** What one destination shape contributes: a face reference its
      resolution, a rectangle literal itself. */
  function Resolve(s: Shape, d: Detection, target: Option<nat>): (r: seq<OldShape.Shape>)
    requires target.Some? ==> target.value < |d|
    ensures s.RectShape? ==> r == [OldShape.RectShape(s.rect)]
  {
    match s
    case FaceShape(fr) => Shapes(fr, d, target)
    case RectShape(rect) => [OldShape.RectShape(rect)]
  }

  /** The destinations of `write_to` and `copy_to`: each shape's
      resolution, concatenated in order. */
  function Destinations(others: seq<Shape>, d: Detection, target: Option<nat>): (r: seq<OldShape.Shape>)
    requires target.Some? ==> target.value < |d|
  {
    if |others| == 0 then []
    else Resolve(others[0], d, target) + Destinations(others[1..], d, target)
  }

  /** Resolving a list of destinations piecewise gives the concatenation of
      the pieces. */
  lemma {:induction false} DestinationsAppend(a: seq<Shape>, b: seq<Shape>, d: Detection, target: Option<nat>)
    requires target.Some? ==> target.value < |d|
    ensures Destinations(a + b, d, target) == Destinations(a, d, target) + Destinations(b, d, target)
    decreases |a|
  {
    if |a| == 0 {
      assert a + b == b;
    } else {
      assert (a + b)[0] == a[0];
      assert (a + b)[1..] == a[1..] + b;
      DestinationsAppend(a[1..], b, d, target);
    }
  }

  /** Rectangle literals contribute exactly one destination each, so a list
      of them resolves to themselves. */
  lemma {:induction false} RectDestinations(rs: seq<SatRect.Rect>, d: Detection, target: Option<nat>)
    requires target.Some? ==> target.value < |d|
    ensures var others := seq(|rs|, i requires 0 <= i < |rs| => RectShape(rs[i]));
      Destinations(others, d, target) == seq(|rs|, i requires 0 <= i < |rs| => OldShape.RectShape(rs[i]))
    decreases |rs|
  {
    var others := seq(|rs|, i requires 0 <= i < |rs| => RectShape(rs[i]));
    if |rs| > 0 {
      RectDestinations(rs[1..], d, target);
      assert others[1..] == seq(|rs| - 1, i requires 0 <= i < |rs| - 1 => RectShape(rs[1..][i]));
    }
  }

  // ---------------------------------------------------------------------
  // apply_operations

  /** The setter call one operation makes, if any. A face reference to swap
      with that resolves to nothing makes no call; with several targets the
      first is used. */
  function CallFor(o: Operation, d: Detection, target: Option<nat>): (c: Option<Call>)
    requires target.Some? ==> target.value < |d|
    ensures c.None? <==> o.SwapWith? && o.other.FaceShape? && |Shapes(o.other.faceRef, d, target)| == 0
    ensures o.SwapWith? && c.Some? ==> c.value == SwapWithShape(Resolve(o.other, d, target)[0])
    ensures o.WriteTo? ==> c == Some(WriteToShapes(Destinations(o.others, d, target)))
    ensures o.CopyTo? ==> c == Some(CopyToShapes(Destinations(o.others, d, target)))
  {
    match o
    case Tile => Some(SetTiling(true))
    case Scale(s) => Some(SetScale(s))
    case Rotate(r) => Some(SetRotDegrees(r))
    case WriteTo(others) => Some(WriteToShapes(Destinations(others, d, target)))
    case CopyTo(others) => Some(CopyToShapes(Destinations(others, d, target)))
    case SwapWith(other) =>
      (match other
       case FaceShape(fr) =>
         var found := Shapes(fr, d, target);
         if |found| == 0 then None else Some(SwapWithShape(found[0]))
       case RectShape(r) => Some(SwapWithShape(OldShape.RectShape(r))))
    case Translate(x, y) => Some(TranslateBy(x, y))
    case Flip(v) => Some(SetFlip(v))
    case Drift(velocity, angle) => Some(SetDrift(velocity, angle))
    case Spin(velocity) => Some(SetSpin(velocity))
    case Brightness(b) => Some(SetBrightness(b))
    case Saturation(s) => Some(SetSaturation(s))
    case Chans(r, g, b) => Some(SetChans(r, g, b))
  }

  function CallSeq(c: Option<Call>): seq<Call> {
    if c.Some? then [c.value] else []
  }

  /** The calls a list of operations makes, in order. */
  function OpCalls(ops: seq<Operation>, d: Detection, target: Option<nat>): (cs: seq<Call>)
    requires target.Some? ==> target.value < |d|
    ensures |cs| <= |ops|
  {
    if |ops| == 0 then [] else CallSeq(CallFor(ops[0], d, target)) + OpCalls(ops[1..], d, target)
  }

  /** `apply_operations`: the operations' setters, applied one after
      another. */
  function ApplyOperations(t: LiveTransform, ops: seq<Operation>, d: Detection, target: Option<nat>): (r: LiveTransform)
    requires target.Some? ==> target.value < |d|
    ensures r.id == t.id && r.created == t.created
    decreases |ops|
  {
    if |ops| == 0 then t
    else ApplyOperations(t.(calls := t.calls + CallSeq(CallFor(ops[0], d, target))), ops[1..], d, target)
  }

  /** Applying operations appends exactly their calls, in operation order,
      after what the transform already carried. */
  lemma {:induction false} ApplyOperationsLog(t: LiveTransform, ops: seq<Operation>, d: Detection, target: Option<nat>)
    requires target.Some? ==> target.value < |d|
    ensures ApplyOperations(t, ops, d, target).calls == t.calls + OpCalls(ops, d, target)
    decreases |ops|
  {
    if |ops| > 0 {
      var c := CallSeq(CallFor(ops[0], d, target));
      ApplyOperationsLog(t.(calls := t.calls + c), ops[1..], d, target);
      assert t.calls + c + OpCalls(ops[1..], d, target) == t.calls + (c + OpCalls(ops[1..], d, target));
    }
  }

  /** Only a swap whose face reference finds nothing is dropped: without
      such swaps there is one call per operation. */
  lemma {:induction false} OneCallPerOperation(ops: seq<Operation>, d: Detection, target: Option<nat>)
    requires target.Some? ==> target.value < |d|
    requires forall i :: 0 <= i < |ops| ==> !(ops[i].SwapWith? && ops[i].other.FaceShape?)
    ensures |OpCalls(ops, d, target)| == |ops|
    decreases |ops|
  {
    if |ops| > 0 {
      OneCallPerOperation(ops[1..], d, target);
    }
  }

  // ---------------------------------------------------------------------
  // build_transforms

  /** One transform per detected face from index `i` on, each taken from the
      cache or created, in detection order. */
  function BuildPerFace(s: TransformStmt, d: Detection, stmtIdx: nat, cache: TransformCache, i: nat)
    : (r: (seq<LiveTransform>, TransformCache))
    requires s.shape.FaceShape? && i <= |d|
    ensures |r.0| == |d| - i
    ensures r.1 == cache - FaceIds(i, |d|, stmtIdx)
    decreases |d| - i
  {
    if i == |d| then
      assert cache - FaceIds(i, |d|, stmtIdx) == cache;
      ([], cache)
    else
      var c1 := GetOrCreate(cache, FaceId(i, stmtIdx), FaceShapeOf(s.shape.faceRef.part, d[i])).1;
      var rest := BuildPerFace(s, d, stmtIdx, c1, i + 1);
      RemoveTwice(cache, {FaceId(i, stmtIdx)}, FaceIds(i + 1, |d|, stmtIdx));
      ([FaceTransform(s, d, stmtIdx, cache, i)] + rest.0, rest.1)
  }

  /** The ids of faces `i` to `n - 1` of statement `stmtIdx`. */
  function FaceIds(i: nat, n: nat, stmtIdx: nat): set<TransformId>
    decreases n - i
  {
    if i >= n then {} else {FaceId(i, stmtIdx)} + FaceIds(i + 1, n, stmtIdx)
  }

  lemma RemoveTwice(m: TransformCache, a: set<TransformId>, b: set<TransformId>)
    ensures m - a - b == m - (a + b)
  {
  }

  /** Face `i`'s transform, as built from a given cache. */
  function FaceTransform(s: TransformStmt, d: Detection, stmtIdx: nat, cache: TransformCache, i: nat): LiveTransform
    requires s.shape.FaceShape? && i < |d|
  {
    var t := GetOrCreate(cache, FaceId(i, stmtIdx), FaceShapeOf(s.shape.faceRef.part, d[i])).0;
    ApplyOperations(t, s.operations, d, Some(i))
  }

  /** The transform a rectangle statement builds: the one cached under
      `rect-{stmt}`, or a new one, given the operations. */
  function RectTransform(s: TransformStmt, d: Detection, stmtIdx: nat, cache: TransformCache): LiveTransform
    requires s.shape.RectShape?
  {
    var t := GetOrCreate(cache, RectId(stmtIdx), OldShape.RectShape(s.shape.rect)).0;
    ApplyOperations(t, s.operations, d, None)
  }

  /** A rectangle's transform carries its statement's id; a cached one keeps
      its history, gains the rectangle as its shape and then the
      operations' calls, and a new one starts from the rectangle with only
      those calls. Operations resolve against every face, no face being the
      target. */
  lemma RectTransformFacts(s: TransformStmt, d: Detection, stmtIdx: nat, cache: TransformCache)
    requires s.shape.RectShape? && KeyedById(cache)
    ensures RectTransform(s, d, stmtIdx, cache).id == RectId(stmtIdx)
    ensures var t, id := RectTransform(s, d, stmtIdx, cache), RectId(stmtIdx);
      id in cache ==> (t.created == cache[id].created &&
        t.calls == cache[id].calls + [SetShape(OldShape.RectShape(s.shape.rect))] + OpCalls(s.operations, d, None))
    ensures var t, id := RectTransform(s, d, stmtIdx, cache), RectId(stmtIdx);
      id !in cache ==> t.created == OldShape.RectShape(s.shape.rect) && t.calls == OpCalls(s.operations, d, None)
  {
    var id := RectId(stmtIdx);
    var rect := OldShape.RectShape(s.shape.rect);
    var t := GetOrCreate(cache, id, rect).0;
    ApplyOperationsLog(t, s.operations, d, None);
    if id in cache {
      assert t.calls == cache[id].calls + [SetShape(rect)];
    } else {
      assert t.calls == [];
      assert [] + OpCalls(s.operations, d, None) == OpCalls(s.operations, d, None);
    }
  }

  /** `build_transforms`: a rectangle statement gives one transform under
      `rect-{stmt}`; a face statement with an index gives that face's
      transform under `face-{face}-{stmt}`, or an error when the index is
      out of range; a face statement without one gives a transform per
      face. Transforms built are taken out of the cache. */
  function BuildTransforms(s: TransformStmt, d: Detection, stmtIdx: nat, cache: TransformCache)
    : (r: Result<(seq<LiveTransform>, TransformCache)>)
    ensures r.Err? <==> s.shape.FaceShape? && s.shape.faceRef.faceIdx.Some? && s.shape.faceRef.faceIdx.value >= |d|
    ensures r.Err? ==> r.msg == "No matching faces found for " + FaceRefDebug(s.shape.faceRef)
    ensures r.Ok? ==> r.value.1.Keys <= cache.Keys && forall id :: id in r.value.1 ==> r.value.1[id] == cache[id]
    ensures r.Ok? && s.shape.RectShape? ==>
      r.value.0 == [RectTransform(s, d, stmtIdx, cache)] && r.value.1 == cache - {RectId(stmtIdx)}
    ensures r.Ok? && s.shape.FaceShape? && s.shape.faceRef.faceIdx.Some? ==>
      var i := s.shape.faceRef.faceIdx.value;
      r.value.0 == [FaceTransform(s, d, stmtIdx, cache, i)] && r.value.1 == cache - {FaceId(i, stmtIdx)}
    ensures r.Ok? && s.shape.FaceShape? && s.shape.faceRef.faceIdx.None? ==> |r.value.0| == |d|
  {
    match s.shape
    case RectShape(rect) =>
      var (t, c) := GetOrCreate(cache, RectId(stmtIdx), OldShape.RectShape(rect));
      Ok(([ApplyOperations(t, s.operations, d, None)], c))
    case FaceShape(fr) =>
      match fr.faceIdx
      case Some(i) =>
        if i < |d| then
          var (t, c) := GetOrCreate(cache, FaceId(i, stmtIdx), FaceShapeOf(fr.part, d[i]));
          Ok(([ApplyOperations(t, s.operations, d, Some(i))], c))
        else Err("No matching faces found for " + FaceRefDebug(fr))
      case None => Ok(BuildPerFace(s, d, stmtIdx, cache, 0))
  }

  /** Without a face index, face `k`'s transform sits at position `k` and
      is the one face `k` gets from the cache the statement started with:
      the faces before it took out other ids. */
  lemma {:induction false} PerFaceInDetectionOrder(s: TransformStmt, d: Detection, stmtIdx: nat,
                                                    cache: TransformCache, i: nat, k: nat)
    requires s.shape.FaceShape? && i <= k < |d|
    ensures BuildPerFace(s, d, stmtIdx, cache, i).0[k - i] == FaceTransform(s, d, stmtIdx, cache, k)
    decreases k - i
  {
    if k > i {
      BuildPerFaceStep(s, d, stmtIdx, cache, i, k);
      PerFaceInDetectionOrder(s, d, stmtIdx, cache - {FaceId(i, stmtIdx)}, i + 1, k);
      FaceTransformWithoutEarlier(s, d, stmtIdx, cache, i, k);
    } else {
      BuildPerFaceHead(s, d, stmtIdx, cache, i);
    }
  }

  /** Taking an earlier face's id out of the cache leaves face `k`'s
      transform as it was. */
  lemma FaceTransformWithoutEarlier(s: TransformStmt, d: Detection, stmtIdx: nat, cache: TransformCache,
                                    i: nat, k: nat)
    requires s.shape.FaceShape? && i < k < |d|
    ensures FaceTransform(s, d, stmtIdx, cache - {FaceId(i, stmtIdx)}, k) == FaceTransform(s, d, stmtIdx, cache, k)
  {
    FaceTransformOtherEntry(s, d, stmtIdx, cache, FaceId(i, stmtIdx), k);
  }

  /** Face `i`'s transform comes first. */
  lemma BuildPerFaceHead(s: TransformStmt, d: Detection, stmtIdx: nat, cache: TransformCache, i: nat)
    requires s.shape.FaceShape? && i < |d|
    ensures BuildPerFace(s, d, stmtIdx, cache, i).0[0] == FaceTransform(s, d, stmtIdx, cache, i)
  {
  }

  /** Past face `i`, the transforms are those built from the cache without
      face `i`'s id. */
  lemma BuildPerFaceStep(s: TransformStmt, d: Detection, stmtIdx: nat, cache: TransformCache, i: nat, k: nat)
    requires s.shape.FaceShape? && i < k < |d|
    ensures BuildPerFace(s, d, stmtIdx, cache, i).0[k - i] ==
      BuildPerFace(s, d, stmtIdx, cache - {FaceId(i, stmtIdx)}, i + 1).0[k - (i + 1)]
  {
  }

  /** Removing another id from the cache does not change face `k`'s
      transform. */
  lemma FaceTransformOtherEntry(s: TransformStmt, d: Detection, stmtIdx: nat, cache: TransformCache,
                                id: TransformId, k: nat)
    requires s.shape.FaceShape? && k < |d| && id != FaceId(k, stmtIdx)
    ensures FaceTransform(s, d, stmtIdx, cache - {id}, k) == FaceTransform(s, d, stmtIdx, cache, k)
  {
    var fid := FaceId(k, stmtIdx);
    assert fid in cache - {id} <==> fid in cache;
    assert fid in cache ==> (cache - {id})[fid] == cache[fid];
  }

  /** Face `k`'s transform carries face `k`'s id; a cached one keeps its
      history, gains the new shape and then the operations' calls; a fresh
      one is created with the face's part and carries only those calls. */
  lemma FaceTransformFacts(s: TransformStmt, d: Detection, stmtIdx: nat, cache: TransformCache, k: nat)
    requires s.shape.FaceShape? && k < |d| && KeyedById(cache)
    ensures FaceTransform(s, d, stmtIdx, cache, k).id == FaceId(k, stmtIdx)
    ensures var t, id := FaceTransform(s, d, stmtIdx, cache, k), FaceId(k, stmtIdx);
      id in cache ==> (t.created == cache[id].created &&
        t.calls == cache[id].calls + [SetShape(FaceShapeOf(s.shape.faceRef.part, d[k]))] + OpCalls(s.operations, d, Some(k)))
    ensures var t, id := FaceTransform(s, d, stmtIdx, cache, k), FaceId(k, stmtIdx);
      id !in cache ==> t.created == FaceShapeOf(s.shape.faceRef.part, d[k]) && t.calls == OpCalls(s.operations, d, Some(k))
  {
    var id := FaceId(k, stmtIdx);
    var part := FaceShapeOf(s.shape.faceRef.part, d[k]);
    var t := GetOrCreate(cache, id, part).0;
    ApplyOperationsLog(t, s.operations, d, Some(k));
    if id in cache {
      assert t.calls == cache[id].calls + [SetShape(part)];
    } else {
      assert t.calls == [];
      assert [] + OpCalls(s.operations, d, Some(k)) == OpCalls(s.operations, d, Some(k));
    }
  }

  /** Different ids are formatted as different strings: the prefix tells a
      rectangle from a face, and in a face id the face number is all digits,
      so the `-` after it ends it. */
  lemma IdStringInjective(a: TransformId, b: TransformId)
    ensures IdString(a) == IdString(b) <==> a == b
  {
    if IdString(a) == IdString(b) {
      var sa, sb := IdString(a), IdString(b);
      if a.RectId? && b.RectId? {
        NatToStringInjective(a.stmt, b.stmt);
      } else if a.FaceId? && b.FaceId? {
        var x, y := NatToString(a.stmt), NatToString(b.stmt);
        NumberBeforeSeparator(a.face, b.face, x, y, '-');
        var n := |NatToString(a.face)| + 1;
        assert x == sa[5..][n..] && y == sb[5..][n..];
        NatToStringInjective(a.stmt, b.stmt);
      }
    }
  }

  // ---------------------------------------------------------------------
  // execute

  /** The order in which `while ts.len() > 0 { ts.swap_remove(0) }` yields
      the transforms. */
  function SwapRemoveOrder<T>(ts: seq<T>): (r: seq<T>)
    decreases |ts|
  {
    if |ts| == 0 then []
    else if |ts| == 1 then [ts[0]]
    else [ts[0]] + SwapRemoveOrder([ts[|ts| - 1]] + ts[1..|ts| - 1])
  }

  /** Draining by `swap_remove(0)` runs the first transform and then the
      others from last to first. */
  lemma {:induction false} SwapRemoveOrderIsFirstThenReversed<T>(ts: seq<T>)
    requires |ts| > 0
    ensures SwapRemoveOrder(ts) == [ts[0]] + Triangles.Reverse(ts[1..])
    decreases |ts|
  {
    if |ts| > 1 {
      var mid, last := ts[1..|ts| - 1], ts[|ts| - 1];
      var rest := [last] + mid;
      SwapRemoveOrderIsFirstThenReversed(rest);
      assert rest[1..] == mid;
      assert ts[1..] == mid + [last];
      ReverseSnoc(mid, last);
    }
  }

  /** Reversing a list with one more element at the end puts it first. */
  lemma ReverseSnoc<T>(xs: seq<T>, x: T)
    ensures Triangles.Reverse(xs + [x]) == [x] + Triangles.Reverse(xs)
  {
    var l, r := Triangles.Reverse(xs + [x]), [x] + Triangles.Reverse(xs);
    assert |l| == |r|;
    forall j | 0 <= j < |l|
      ensures l[j] == r[j]
    {
      if j > 0 {
        assert r[j] == Triangles.Reverse(xs)[j - 1];
      }
    }
  }

  /** One statement's effect on a frame: the transforms it runs and the
      previous frame's cache that is left. A clear statement and a
      statement whose build fails run nothing and leave the cache alone. */
  function StepStatement(s: Statement, d: Detection, idx: nat, prev: TransformCache)
    : (r: (seq<LiveTransform>, TransformCache))
    ensures r.1.Keys <= prev.Keys && forall id :: id in r.1 ==> r.1[id] == prev[id]
  {
    match s
    case Clear(_) => ([], prev)
    case Transform(ts) =>
      match BuildTransforms(ts, d, idx, prev)
      case Ok((built, rest)) => (SwapRemoveOrder(built), rest)
      case Err(_) => ([], prev)
  }

  /** The transforms run from statement `idx` on, until the end or the
      first statement whose time check fails. */
  function RunFrom(statements: seq<Statement>, d: Detection, timedOut: nat -> bool, idx: nat,
                   prev: TransformCache): seq<LiveTransform>
    requires idx <= |statements|
    decreases |statements| - idx
  {
    if idx == |statements| || timedOut(idx) then []
    else
      var (ran, rest) := StepStatement(statements[idx], d, idx, prev);
      ran + RunFrom(statements, d, timedOut, idx + 1, rest)
  }

  /** The cache built by inserting each run transform under its id, later
      ones replacing earlier ones. */
  function CacheOf(ran: seq<LiveTransform>): TransformCache
  {
    if |ran| == 0 then map[]
    else
      var last := ran[|ran| - 1];
      CacheOf(ran[..|ran| - 1])[last.id := last]
  }

  /** `j` is the last position in `ran` that carries `id`. */
  predicate LastWithId(ran: seq<LiveTransform>, id: TransformId, j: nat) {
    j < |ran| && ran[j].id == id && forall j' :: j < j' < |ran| ==> ran[j'].id != id
  }

  /** The cache holds exactly the ids that ran, each under its own id. */
  lemma {:induction false} CacheOfKeys(ran: seq<LiveTransform>)
    ensures CacheOf(ran).Keys == set t | t in ran :: t.id
    ensures KeyedById(CacheOf(ran))
    decreases |ran|
  {
    if |ran| > 0 {
      var front := ran[..|ran| - 1];
      CacheOfKeys(front);
      assert forall t :: t in ran <==> t in front || t == ran[|ran| - 1];
    }
  }

  /** Each entry is the last transform run under its id. */
  lemma {:induction false} CacheOfLast(ran: seq<LiveTransform>, j: nat)
    requires j < |ran| && LastWithId(ran, ran[j].id, j)
    ensures ran[j].id in CacheOf(ran) && CacheOf(ran)[ran[j].id] == ran[j]
    decreases |ran|
  {
    if j < |ran| - 1 {
      var front := ran[..|ran| - 1];
      assert LastWithId(front, front[j].id, j);
      CacheOfLast(front, j);
    }
  }

  lemma CacheOfSnoc(ran: seq<LiveTransform>, t: LiveTransform)
    ensures CacheOf(ran + [t]) == CacheOf(ran)[t.id := t]
  {
    assert (ran + [t])[..|ran|] == ran;
  }

  /** `self.transforms.insert(t.id.clone(), t)` for each transform run. */
  method Store(cache: TransformCache, ran: seq<LiveTransform>, step: seq<LiveTransform>)
    returns (cache': TransformCache)
    requires cache == CacheOf(ran)
    ensures cache' == CacheOf(ran + step)
  {
    cache' := cache;
    var k := 0;
    StorePrefix(ran, step, 0);
    while k < |step|
      invariant 0 <= k <= |step|
      invariant cache' == CacheOf(ran + step[..k])
    {
      StorePrefix(ran, step, k + 1);
      cache' := cache'[step[k].id := step[k]];
      k := k + 1;
    }
    assert step[..k] == step;
  }

  /** Storing one more transform of a statement extends the cache by it. */
  lemma StorePrefix(ran: seq<LiveTransform>, step: seq<LiveTransform>, k: nat)
    requires k <= |step|
    ensures k == 0 ==> CacheOf(ran + step[..k]) == CacheOf(ran)
    ensures k > 0 ==> CacheOf(ran + step[..k]) == CacheOf(ran + step[..k - 1])[step[k - 1].id := step[k - 1]]
  {
    if k == 0 {
      assert ran + step[..k] == ran;
    } else {
      CacheOfSnoc(ran + step[..k - 1], step[k - 1]);
      assert ran + step[..k] == ran + step[..k - 1] + [step[k - 1]];
    }
  }

  /** A statement that is not timed out runs its transforms before those of
      the statements after it. */
  lemma RunFromStep(statements: seq<Statement>, d: Detection, timedOut: nat -> bool, idx: nat,
                    prev: TransformCache, ran: seq<LiveTransform>)
    requires idx < |statements| && !timedOut(idx)
    ensures var st := StepStatement(statements[idx], d, idx, prev);
      ran + RunFrom(statements, d, timedOut, idx, prev) ==
      (ran + st.0) + RunFrom(statements, d, timedOut, idx + 1, st.1)
  {
  }

  /** `execute`: statements run in order against a cache taken from the
      previous frame; every transform run is stored in a fresh cache under
      its id. When a time check fails, what ran so far stays and the rest is
      skipped. */
  method Execute(it: Interpreter, d: Detection, timedOut: nat -> bool)
    returns (it': Interpreter, ran: seq<LiveTransform>)
    ensures ran == RunFrom(it.statements, d, timedOut, 0, it.transforms)
    ensures it'.statements == it.statements && it'.transforms == CacheOf(ran)
  {
    var prev := it.transforms;
    var cache: TransformCache := map[];
    ran := [];
    var idx := 0;
    while idx < |it.statements|
      invariant 0 <= idx <= |it.statements|
      invariant ran + RunFrom(it.statements, d, timedOut, idx, prev) == RunFrom(it.statements, d, timedOut, 0, it.transforms)
      invariant cache == CacheOf(ran)
    {
      if timedOut(idx) {
        assert RunFrom(it.statements, d, timedOut, idx, prev) == [];
        assert ran + [] == ran;
        return Interpreter(it.statements, cache), ran;
      }
      var st := StepStatement(it.statements[idx], d, idx, prev);
      cache := Store(cache, ran, st.0);
      RunFromStep(it.statements, d, timedOut, idx, prev, ran);
      ran := ran + st.0;
      prev := st.1;
      idx := idx + 1;
    }
    assert ran + [] == ran;
    return Interpreter(it.statements, cache), ran;
  }

  // ---------------------------------------------------------------------
  // Properties of a frame

  /** A timed-out statement and every statement after it run nothing. */
  lemma TimeoutStopsTheFrame(statements: seq<Statement>, d: Detection, timedOut: nat -> bool, idx: nat,
                             prev: TransformCache)
    requires idx < |statements| && timedOut(idx)
    ensures RunFrom(statements, d, timedOut, idx, prev) == []
  {
  }

  /** A clear statement, and a statement whose absolute face index is out
      of range, is skipped: the frame goes on with the next statement and
      the same cache. */
  lemma SkippedStatements(statements: seq<Statement>, d: Detection, timedOut: nat -> bool, idx: nat,
                          prev: TransformCache)
    requires idx < |statements| && !timedOut(idx)
    requires statements[idx].Clear? ||
      (var s := statements[idx].t.shape; s.FaceShape? && s.faceRef.faceIdx.Some? && s.faceRef.faceIdx.value >= |d|)
    ensures RunFrom(statements, d, timedOut, idx, prev) == RunFrom(statements, d, timedOut, idx + 1, prev)
  {
  }

  /** The ids statement `k` builds: `rect-{k}`, or `face-{face}-{k}` for a
      detected face. */
  predicate StmtId(id: TransformId, k: nat, d: Detection) {
    id == RectId(k) || exists i :: 0 <= i < |d| && id == FaceId(i, k)
  }

  /** An id built by one of the statements `from` to `to - 1`. */
  predicate BuiltId(id: TransformId, from: nat, to: nat, d: Detection) {
    exists k :: from <= k < to && StmtId(id, k, d)
  }

  /** Every transform a statement builds carries an id of that statement. */
  lemma BuildIds(s: TransformStmt, d: Detection, idx: nat, prev: TransformCache)
    requires KeyedById(prev)
    ensures var r := BuildTransforms(s, d, idx, prev);
      r.Ok? ==> forall j :: 0 <= j < |r.value.0| ==> StmtId(r.value.0[j].id, idx, d)
  {
    var r := BuildTransforms(s, d, idx, prev);
    if r.Ok? && s.shape.FaceShape? {
      if s.shape.faceRef.faceIdx.None? {
        forall j | 0 <= j < |r.value.0|
          ensures StmtId(r.value.0[j].id, idx, d)
        {
          PerFaceInDetectionOrder(s, d, idx, prev, 0, j);
          FaceTransformFacts(s, d, idx, prev, j);
        }
      }
    }
  }

  /** Every transform a statement runs carries an id of that statement. */
  lemma StepIds(s: Statement, d: Detection, idx: nat, prev: TransformCache)
    requires KeyedById(prev)
    ensures forall t :: t in StepStatement(s, d, idx, prev).0 ==> StmtId(t.id, idx, d)
  {
    if s.Transform? {
      var r := BuildTransforms(s.t, d, idx, prev);
      if r.Ok? {
        BuildIds(s.t, d, idx, prev);
        SwapRemoveKeepsElements(r.value.0);
        forall t | t in SwapRemoveOrder(r.value.0)
          ensures StmtId(t.id, idx, d)
        {
          assert t in multiset(r.value.0);
        }
      }
    }
  }

  /** Draining by `swap_remove` runs each transform exactly once. */
  lemma {:induction false} SwapRemoveKeepsElements<T>(ts: seq<T>)
    ensures multiset(SwapRemoveOrder(ts)) == multiset(ts)
    decreases |ts|
  {
    if |ts| > 1 {
      var tail := ts[1..];
      var rest := [tail[|tail| - 1]] + tail[..|tail| - 1];
      assert rest == [ts[|ts| - 1]] + ts[1..|ts| - 1];
      SwapRemoveKeepsElements(rest);
      RotateMultiset(tail);
      var out := SwapRemoveOrder(ts);
      assert out == [ts[0]] + SwapRemoveOrder(rest);
      assert multiset(out) == multiset([ts[0]]) + multiset(tail);
      assert ts == [ts[0]] + tail;
    }
  }

  /** Moving the last element to the front keeps the same elements. */
  lemma RotateMultiset<T>(xs: seq<T>)
    requires |xs| > 0
    ensures multiset([xs[|xs| - 1]] + xs[..|xs| - 1]) == multiset(xs)
  {
    assert xs == xs[..|xs| - 1] + [xs[|xs| - 1]];
  }

  /** The cache a frame leaves holds only transforms rebuilt in this frame,
      under ids of the statements that ran: every other entry of the
      previous frame is dropped. */
  lemma {:induction false} OnlyRebuiltIdsSurvive(statements: seq<Statement>, d: Detection, timedOut: nat -> bool,
                                                 idx: nat, prev: TransformCache)
    requires idx <= |statements| && KeyedById(prev)
    ensures forall t :: t in RunFrom(statements, d, timedOut, idx, prev) ==> BuiltId(t.id, idx, |statements|, d)
    decreases |statements| - idx
  {
    if idx < |statements| && !timedOut(idx) {
      var ran, rest := StepStatement(statements[idx], d, idx, prev).0, StepStatement(statements[idx], d, idx, prev).1;
      StepIds(statements[idx], d, idx, prev);
      assert KeyedById(rest);
      OnlyRebuiltIdsSurvive(statements, d, timedOut, idx + 1, rest);
      var later := RunFrom(statements, d, timedOut, idx + 1, rest);
      assert RunFrom(statements, d, timedOut, idx, prev) == ran + later;
      forall t: LiveTransform | t in ran + later
        ensures BuiltId(t.id, idx, |statements|, d)
      {
        if t in ran {
          BuiltHere(t.id, idx, |statements|, d);
        } else {
          BuiltLater(t.id, idx, |statements|, d);
        }
      }
    }
  }

  lemma BuiltHere(id: TransformId, idx: nat, to: nat, d: Detection)
    requires StmtId(id, idx, d) && idx < to
    ensures BuiltId(id, idx, to, d)
  {
  }

  lemma BuiltLater(id: TransformId, idx: nat, to: nat, d: Detection)
    requires BuiltId(id, idx + 1, to, d)
    ensures BuiltId(id, idx, to, d)
  {
    var k :| idx + 1 <= k < to && StmtId(id, k, d);
  }
}
