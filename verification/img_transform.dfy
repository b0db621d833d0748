/** The per-statement transform of eymo-img/src/transform.rs: its
    configuration, the per-op animation state kept between frames, the
    `tick` that advances that state, and the choice of vertex groups for
    swap, copy and plain ops.

    The GPU side (pipelines, samplers, textures) is not modelled. What the
    source reads from the device or the clock arrives in an `Env`: the frame
    size, the seconds since the transform was built (the source never
    updates `last_tick`, so this is the time since construction), cosine and
    sine of an angle in degrees, the shape centre, and the projection that
    turns a source and destination shape into vertices. */
module ImgTransform {

  import opened Wrappers
  import opened Num
  import opened ImgGeom
  import opened ImgShape
  import opened Vertices
  import Ast

  /** `ShapeOpState`: what one op carries from frame to frame. */
  datatype ShapeOpState = ShapeOpState(
    translation: Option<(int, int)>,
    driftVec: Option<(real, real)>,
    rotateDeg: Option<real>)

  /** `ShapeOpState::default()`. */
  const EmptyState: ShapeOpState := ShapeOpState(None, None, None)

  /** `ShapeOp`: a cache id, the shape read from, and where it is written:
      swapped with `swap`, copied to `dest`, or back onto itself. */
  datatype ShapeOp = ShapeOp(id: string, base: Shape, swap: Option<Shape>, dest: Option<Shape>)

  /** `ShapeOp::swap`. */
  function Swap(id: string, a: Shape, b: Shape): (op: ShapeOp)
    ensures op.id == id && op.base == a && op.swap == Some(b) && op.dest.None?
  {
    ShapeOp(id, a, Some(b), None)
  }

  /** `ShapeOp::copy`. */
  function Copy(id: string, src: Shape, dest: Shape): (op: ShapeOp)
    ensures op.id == id && op.base == src && op.swap.None? && op.dest == Some(dest)
  {
    ShapeOp(id, src, None, Some(dest))
  }

  /** `ShapeOp::on_shape`. */
  function OnShape(id: string, s: Shape): (op: ShapeOp)
    ensures op.id == id && op.base == s && op.swap.None? && op.dest.None?
  {
    ShapeOp(id, s, None, None)
  }

  /** The configuration and cache of a `Transform`. The colour modifiers use
      -1 for "unset". */
  datatype Transform = Transform(
    rotateDeg: Option<real>,
    flip: Option<Ast.FlipVariant>,
    translation: Option<(int, int)>,
    scale: real,
    tile: bool,
    rps: Option<real>,
    driftVec: Option<(real, real)>,
    brightnessMod: real,
    saturationMod: real,
    chansMod: seq<real>,
    cache: map<string, ShapeOpState>)

  const UNSET: real := -1.0

  /** No geometric change is configured. */
  predicate Still(t: Transform) {
    t.rotateDeg.None? && t.flip.None? && t.translation.None? && t.rps.None? &&
    t.driftVec.None? && t.scale == 1.0 && !t.tile
  }

  /** No colour change is configured. */
  predicate Uncoloured(t: Transform) {
    t.brightnessMod == UNSET && t.saturationMod == UNSET &&
    |t.chansMod| == 4 && forall i :: 0 <= i < 4 ==> t.chansMod[i] == UNSET
  }

  /** `Transform::new`: no geometric or colour change, and an empty cache. */
  function New(): (t: Transform)
    ensures Still(t) && Uncoloured(t) && t.cache == map[]
  {
    Transform(None, None, None, 1.0, false, None, None, UNSET, UNSET,
              [UNSET, UNSET, UNSET, UNSET], map[])
  }

  // ---------------------------------------------------------------------
  // Setters

  function SetBrightness(t: Transform, b: real): (r: Transform)
    ensures r.brightnessMod == b
  {
    t.(brightnessMod := b)
  }

  function SetSaturation(t: Transform, s: real): (r: Transform)
    ensures r.saturationMod == s
  {
    t.(saturationMod := s)
  }

  /** `set_chans`: the three channel factors, with alpha fixed at 1. */
  function SetChans(t: Transform, red: real, green: real, blue: real): (r: Transform)
    ensures |r.chansMod| == 4 && r.chansMod[..3] == [red, green, blue] && r.chansMod[3] == 1.0
  {
    t.(chansMod := [red, green, blue, 1.0])
  }

  function SetFlip(t: Transform, f: Ast.FlipVariant): (r: Transform)
    ensures r.flip == Some(f)
  {
    t.(flip := Some(f))
  }

  /** `set_scale`: stored even when tiling, where the source only warns. */
  function SetScale(t: Transform, s: real): (r: Transform)
    ensures r.scale == s && r.tile == t.tile
  {
    t.(scale := s)
  }

  function SetTiling(t: Transform, b: bool): (r: Transform)
    ensures r.tile == b
  {
    t.(tile := b)
  }

  function SetRotDegrees(t: Transform, deg: real): (r: Transform)
    ensures r.rotateDeg == Some(deg)
  {
    t.(rotateDeg := Some(deg))
  }

  /** `set_spin`: the rotation rate, and the rotation reset to 0. */
  function SetSpin(t: Transform, rps: real): (r: Transform)
    ensures r.rps == Some(rps) && r.rotateDeg == Some(0.0)
  {
    SetRotDegrees(t.(rps := Some(rps)), 0.0)
  }

  function TranslateBy(t: Transform, x: int, y: int): (r: Transform)
    ensures r.translation == Some((x, y))
  {
    t.(translation := Some((x, y)))
  }

  /** `set_drift`: speed and heading, and the translation reset to (0, 0). */
  function SetDrift(t: Transform, velocity: real, angle: real): (r: Transform)
    ensures r.driftVec == Some((velocity, angle)) && r.translation == Some((0, 0))
  {
    TranslateBy(t.(driftVec := Some((velocity, angle))), 0, 0)
  }

  /** Each setter changes its own fields and nothing else. */
  lemma SettersAreLocal(t: Transform, a: real, b: real, c: real, x: int, y: int, f: Ast.FlipVariant)
    ensures SetBrightness(t, a).(brightnessMod := t.brightnessMod) == t
    ensures SetSaturation(t, a).(saturationMod := t.saturationMod) == t
    ensures SetChans(t, a, b, c).(chansMod := t.chansMod) == t
    ensures SetFlip(t, f).(flip := t.flip) == t
    ensures SetScale(t, a).(scale := t.scale) == t
    ensures SetRotDegrees(t, a).(rotateDeg := t.rotateDeg) == t
    ensures SetSpin(t, a).(rps := t.rps, rotateDeg := t.rotateDeg) == t
    ensures TranslateBy(t, x, y).(translation := t.translation) == t
    ensures SetDrift(t, a, b).(driftVec := t.driftVec, translation := t.translation) == t
    ensures SetBrightness(t, a).cache == t.cache && SetDrift(t, a, b).cache == t.cache
  {
  }

  /** `spin` after `rotate` discards the rotation; `drift` after
      `translate` discards the translation. The later operation wins. */
  lemma ResetsOverride(t: Transform, deg: real, rps: real, x: int, y: int, v: real, a: real)
    ensures SetSpin(SetRotDegrees(t, deg), rps) == SetSpin(t, rps)
    ensures SetDrift(TranslateBy(t, x, y), v, a) == SetDrift(t, v, a)
    ensures SetRotDegrees(SetSpin(t, rps), deg).rotateDeg == Some(deg)
    ensures SetRotDegrees(SetSpin(t, rps), deg).rps == Some(rps)
  {
  }

  // ---------------------------------------------------------------------
  // Angles

  /** `flip(val, min, max)`: `val` reflected within [min, max], clamped. */
  function FlipIn(v: real, lo: real, hi: real): (r: real)
    ensures lo <= hi ==> lo <= r <= hi
    ensures lo <= v <= hi ==> r + v == lo + hi
  {
    var res := lo + hi - v;
    var capped := if res < hi then res else hi;
    if capped > lo then capped else lo
  }

  /** Reflecting twice within the range restores the value. */
  lemma FlipInvolution(v: real, lo: real, hi: real)
    requires lo <= v <= hi
    ensures FlipIn(FlipIn(v, lo, hi), lo, hi) == v
  {
  }

  /** `mirror_x`: the heading after bouncing off a vertical edge. */
  function MirrorX(degrees: real): (r: real)
    ensures r + degrees == 360.0
  {
    360.0 - degrees
  }

  /** `mirror_y`: the heading after bouncing off a horizontal edge. */
  function MirrorY(degrees: real): (r: real)
    ensures 0.0 <= degrees < 180.0 ==> 0.0 < r <= 180.0 && r + degrees == 180.0
    ensures 180.0 <= degrees < 360.0 ==> 180.0 < r <= 360.0 && r + degrees == 540.0
  {
    if degrees >= 180.0 then 540.0 - degrees else 180.0 - degrees
  }

  /** `mirror_x` undoes itself; `mirror_y` undoes itself on (0, 360]. */
  lemma MirrorInvolutions(d: real)
    ensures MirrorX(MirrorX(d)) == d
    ensures 0.0 < d <= 360.0 ==> MirrorY(MirrorY(d)) == d
    ensures 0.0 < d <= 360.0 ==> 0.0 < MirrorY(d) <= 360.0
  {
  }

  // ---------------------------------------------------------------------
  // tick

  /** The frame's inputs from the device and the clock, and the projection
      of shapes to vertices (`vertices_for_shapes`, `tiled_vertices`), which
      sits on the GPU side. */
  datatype Env = Env(
    width: nat,
    height: nat,
    elapsed: real,
    cosDeg: real -> real,
    sinDeg: real -> real,
    centerOf: Shape -> Point,
    project: (Transform, Shape, Shape, ShapeOpState) -> seq<Vertex>,
    tiled: (Transform, Shape, ShapeOpState) -> seq<Vertex>)

  /** Where a tick starts from: the op's previous value for each field, else
      the configured value, else zero. */
  datatype Start = Start(rot: real, vel: real, ang: real, tx: int, ty: int)

  function Defaults(t: Transform): Start {
    var d := t.driftVec.GetOr((0.0, 0.0));
    var tr := t.translation.GetOr((0, 0));
    Start(t.rotateDeg.GetOr(0.0), d.0, d.1, tr.0, tr.1)
  }

  function StartOf(t: Transform, prev: Option<ShapeOpState>): (s: Start)
    ensures prev.None? ==> s == Defaults(t)
    ensures prev.Some? && prev.value.rotateDeg.Some? ==> s.rot == prev.value.rotateDeg.value
    ensures prev.Some? && prev.value.rotateDeg.None? ==> s.rot == Defaults(t).rot
    ensures prev.Some? && prev.value.driftVec.None? ==> s.vel == Defaults(t).vel && s.ang == Defaults(t).ang
    ensures prev.Some? && prev.value.driftVec.Some? ==> (s.vel, s.ang) == prev.value.driftVec.value
    ensures prev.Some? && prev.value.translation.Some? ==> (s.tx, s.ty) == prev.value.translation.value
    ensures prev.Some? && prev.value.translation.None? ==> (s.tx, s.ty) == (Defaults(t).tx, Defaults(t).ty)
  {
    var d := Defaults(t);
    match prev
    case None => d
    case Some(p) =>
      var dv := p.driftVec.GetOr((d.vel, d.ang));
      var tr := p.translation.GetOr((d.tx, d.ty));
      Start(p.rotateDeg.GetOr(d.rot), dv.0, dv.1, tr.0, tr.1)
  }

  /** One axis of the edge bounce: past the far edge the position is
      reflected back and the heading mirrored; then, below zero, the
      position is negated and the heading mirrored again. */
  function Bounce(v: int, limit: int, ang: real, mirror: real -> real): (int, real) {
    var v1 := if v >= limit then limit - (v - limit) else v;
    var a1 := if v >= limit then mirror(ang) else ang;
    if v1 < 0 then (-v1, mirror(a1)) else (v1, a1)
  }

  /** An overshoot of at most one frame dimension lands inside the frame,
      and a position already inside is left alone with its heading. */
  lemma BounceLands(v: int, limit: int, ang: real, mirror: real -> real)
    requires limit >= 0
    ensures -limit <= v <= 2 * limit ==> 0 <= Bounce(v, limit, ang, mirror).0 <= limit
    ensures 0 <= v < limit ==> Bounce(v, limit, ang, mirror) == (v, ang)
    ensures v >= limit && v <= 2 * limit ==> Bounce(v, limit, ang, mirror) == (2 * limit - v, mirror(ang))
    ensures v < 0 && v >= -limit ==> Bounce(v, limit, ang, mirror) == (-v, mirror(ang))
  {
  }

  /** The rotation after spinning at `rps` revolutions per second for
      `elapsed` seconds from `rot`. */
  function Spun(rot: real, rps: real, elapsed: real): real {
    rot + 360.0 * rps * elapsed
  }

  /** The spin step: the start rotation advanced by 360 degrees per
      revolution per second, with no reduction modulo 360; without spin, the
      configured rotation. */
  function SpinStep(t: Transform, st: Start, elapsed: real): (r: Option<real>)
    ensures t.rps.Some? ==> r == Some(Spun(st.rot, t.rps.value, elapsed))
    ensures t.rps.None? ==> r == t.rotateDeg
  {
    if t.rps.Some? then Some(Spun(st.rot, t.rps.value, elapsed))
    else if t.rotateDeg.Some? then t.rotateDeg
    else None
  }

  /** The centre's next position before bouncing: the centre, plus the
      translation so far, plus `elapsed * velocity` along the heading, each
      component rounded to `i32`. */
  function Unbounced(st: Start, center: Point, env: Env): (int, int) {
    var hyp := st.vel * env.elapsed;
    (I32OfUsize(center.x) + st.tx + RoundI32(env.sinDeg(st.ang) * hyp),
     I32OfUsize(center.y) + st.ty + RoundI32(env.cosDeg(st.ang) * hyp))
  }

  /** The drift step: the bounced translation and the new heading. */
  function DriftMove(st: Start, center: Point, env: Env): ((int, int), real) {
    var next := Unbounced(st, center, env);
    var cx, cy := I32OfUsize(center.x), I32OfUsize(center.y);
    var hx := Bounce(next.0, I32OfUsize(env.width), st.ang, MirrorX);
    var vy := Bounce(next.1, I32OfUsize(env.height), hx.1, MirrorY);
    ((hx.0 - cx, vy.0 - cy), vy.1)
  }

  /** `tick`: the next state of one op whose shape is centred at `center`.
      Spin, when set, advances the rotation from where the op left it;
      drift, when set, moves and bounces the op and keeps its speed;
      otherwise the configured rotation and translation are used as they
      are. */
  function Tick(t: Transform, center: Point, env: Env, prev: Option<ShapeOpState>): (next: ShapeOpState)
    ensures t.rps.Some? ==> next.rotateDeg == Some(Spun(StartOf(t, prev).rot, t.rps.value, env.elapsed))
    ensures t.rps.None? ==> next.rotateDeg == t.rotateDeg
    ensures t.driftVec.None? ==> next.driftVec.None? && next.translation == t.translation
    ensures t.driftVec.Some? ==> (next.driftVec.Some? && next.translation.Some? &&
      next.driftVec.value.0 == StartOf(t, prev).vel)
  {
    var st := StartOf(t, prev);
    var rot := SpinStep(t, st, env.elapsed);
    if t.driftVec.Some? then
      var m := DriftMove(st, center, env);
      ShapeOpState(Some(m.0), Some((st.vel, m.1)), rot)
    else
      ShapeOpState(t.translation, None, rot)
  }

  /** A transform with nothing configured leaves every op at rest. */
  lemma StillTickIsEmpty(t: Transform, center: Point, env: Env)
    requires Still(t)
    ensures Tick(t, center, env, None) == EmptyState
  {
  }

  /** Spin accumulates: ticking again from the previous state adds another
      `360 * rps * elapsed`, so two ticks turn as far as one tick over the
      summed times. Because the clock is never reset, each tick's time is
      measured from construction. */
  lemma SpinAccumulates(t: Transform, center: Point, e1: Env, e2: Env, rps: real)
    requires t.rps == Some(rps)
    ensures var s1 := Tick(t, center, e1, None);
      Tick(t, center, e2, Some(s1)).rotateDeg ==
        Some(Spun(t.rotateDeg.GetOr(0.0), rps, e1.elapsed + e2.elapsed))
  {
    var s1 := Tick(t, center, e1, None);
    assert StartOf(t, None).rot == t.rotateDeg.GetOr(0.0);
    assert s1.rotateDeg == Some(Spun(t.rotateDeg.GetOr(0.0), rps, e1.elapsed));
    assert StartOf(t, Some(s1)).rot == s1.rotateDeg.value;
    assert Tick(t, center, e2, Some(s1)).rotateDeg == Some(Spun(s1.rotateDeg.value, rps, e2.elapsed));
    assert 360.0 * rps * (e1.elapsed + e2.elapsed) == 360.0 * rps * e1.elapsed + 360.0 * rps * e2.elapsed;
    assert Spun(s1.rotateDeg.value, rps, e2.elapsed) == Spun(t.rotateDeg.GetOr(0.0), rps, e1.elapsed + e2.elapsed);
  }

  /** A drifting op whose next centre overshoots the frame by at most one
      frame dimension on each axis ends inside the frame: its translated
      centre lies in [0, width] by [0, height]. */
  lemma DriftStaysInFrame(t: Transform, center: Point, env: Env, prev: Option<ShapeOpState>)
    requires t.driftVec.Some?
    requires center.x <= I32_MAX && center.y <= I32_MAX
    requires env.width <= I32_MAX && env.height <= I32_MAX
    ensures var n := Unbounced(StartOf(t, prev), center, env);
      var next := Tick(t, center, env, prev);
      -(env.width as int) <= n.0 <= 2 * env.width && -(env.height as int) <= n.1 <= 2 * env.height ==>
        0 <= center.x + next.translation.value.0 <= env.width &&
        0 <= center.y + next.translation.value.1 <= env.height
  {
    var st := StartOf(t, prev);
    var n := Unbounced(st, center, env);
    SmallCastIsIdentity(center.x);
    SmallCastIsIdentity(center.y);
    SmallCastIsIdentity(env.width);
    SmallCastIsIdentity(env.height);
    BounceLands(n.0, env.width, st.ang, MirrorX);
    var hx := Bounce(n.0, env.width, st.ang, MirrorX);
    BounceLands(n.1, env.height, hx.1, MirrorY);
    var m := DriftMove(st, center, env);
    assert Tick(t, center, env, prev).translation == Some(m.0);
  }

  /** With no time elapsed, a drifting op inside the frame keeps its
      translation, speed and heading. */
  lemma DriftAtRest(t: Transform, center: Point, env: Env, prev: Option<ShapeOpState>)
    requires t.driftVec.Some? && env.elapsed == 0.0
    requires center.x <= I32_MAX && center.y <= I32_MAX
    requires env.width <= I32_MAX && env.height <= I32_MAX
    ensures var st := StartOf(t, prev);
      var next := Tick(t, center, env, prev);
      0 <= center.x + st.tx < env.width && 0 <= center.y + st.ty < env.height ==>
        next.translation == Some((st.tx, st.ty)) && next.driftVec == Some((st.vel, st.ang))
  {
    var st := StartOf(t, prev);
    assert st.vel * env.elapsed == 0.0;
    assert env.cosDeg(st.ang) * 0.0 == 0.0 && env.sinDeg(st.ang) * 0.0 == 0.0;
    assert RoundI32(0.0) == 0;
    SmallCastIsIdentity(center.x);
    SmallCastIsIdentity(center.y);
    SmallCastIsIdentity(env.width);
    SmallCastIsIdentity(env.height);
    var n := Unbounced(st, center, env);
    assert n == (center.x + st.tx, center.y + st.ty);
    BounceLands(n.0, env.width, st.ang, MirrorX);
    BounceLands(n.1, env.height, st.ang, MirrorY);
  }

  /** A `u32` that fits in `i32` keeps its value through `as i32`. */
  lemma SmallCastIsIdentity(n: nat)
    requires n <= I32_MAX
    ensures I32OfUsize(n) == n
  {
  }

  // ---------------------------------------------------------------------
  // gen_vertices

  /** The (source, destination) pairs an op projects: a swap gives both
      directions, a copy gives base to destination, and an op with neither
      draws its base onto itself. */
  function Groups(op: ShapeOp): (gs: seq<(Shape, Shape)>)
    ensures |gs| >= 1
    ensures forall i :: 0 <= i < |gs| ==> gs[i].0 == op.base || (op.swap.Some? && gs[i].0 == op.swap.value)
  {
    (if op.swap.Some? then [(op.base, op.swap.value), (op.swap.value, op.base)] else []) +
    (if op.dest.Some? then [(op.base, op.dest.value)] else []) +
    (if op.swap.None? && op.dest.None? then [(op.base, op.base)] else [])
  }

  function ProjectAll(t: Transform, gs: seq<(Shape, Shape)>, s: ShapeOpState, env: Env): seq<Vertex>
    decreases |gs|
  {
    if |gs| == 0 then [] else env.project(t, gs[0].0, gs[0].1, s) + ProjectAll(t, gs[1..], s, env)
  }

  /** `gen_vertices`: tiling overrides everything; otherwise the op's groups
      projected and concatenated in order. */
  function GenVertices(t: Transform, op: ShapeOp, s: ShapeOpState, env: Env): (vs: seq<Vertex>)
    ensures t.tile ==> vs == env.tiled(t, op.base, s)
    ensures !t.tile ==> vs == ProjectAll(t, Groups(op), s, env)
  {
    if t.tile then env.tiled(t, op.base, s) else ProjectAll(t, Groups(op), s, env)
  }

  /** The three constructors give two, one and one group. */
  lemma ConstructorGroups(id: string, a: Shape, b: Shape, t: Transform, s: ShapeOpState, env: Env)
    ensures Groups(Swap(id, a, b)) == [(a, b), (b, a)]
    ensures Groups(Copy(id, a, b)) == [(a, b)]
    ensures Groups(OnShape(id, a)) == [(a, a)]
    ensures !t.tile ==> GenVertices(t, Swap(id, a, b), s, env) == env.project(t, a, b, s) + env.project(t, b, a, s)
    ensures !t.tile ==> GenVertices(t, Copy(id, a, b), s, env) == env.project(t, a, b, s)
    ensures !t.tile ==> GenVertices(t, OnShape(id, a), s, env) == env.project(t, a, a, s)
  {
    var ab, ba, aa := env.project(t, a, b, s), env.project(t, b, a, s), env.project(t, a, a, s);
    assert [(a, b), (b, a)][1..] == [(b, a)];
    assert [(b, a)][1..] == [];
    assert ProjectAll(t, [(b, a)], s, env) == ba + [] == ba;
    assert ProjectAll(t, [(a, b)], s, env) == ab + [] == ab;
    assert ProjectAll(t, [(a, a)], s, env) == aa + [] == aa;
  }

  // ---------------------------------------------------------------------
  // execute

  /** One pass of the colour-modifying render: the vertices drawn and the
      modifiers handed to the shader. */
  datatype Pass = Pass(vertices: seq<Vertex>, brightness: real, saturation: real, chans: seq<real>)

  /** One op's turn in `execute`: its cached state is taken out, ticked, used
      for its vertices and put back under the same id. */
  function StepOp(t: Transform, cache: map<string, ShapeOpState>, op: ShapeOp, env: Env):
    (r: (map<string, ShapeOpState>, seq<Vertex>))
  {
    var prev := if op.id in cache then Some(cache[op.id]) else None;
    var next := Tick(t, env.centerOf(op.base), env, prev);
    (cache[op.id := next], GenVertices(t, op, next, env))
  }

  /** The cache and vertices after the ops of `ops`, taken in order. */
  function RunOps(t: Transform, cache: map<string, ShapeOpState>, ops: seq<ShapeOp>, env: Env):
    (r: (map<string, ShapeOpState>, seq<Vertex>))
    decreases |ops|
  {
    if |ops| == 0 then (cache, [])
    else
      var prior := RunOps(t, cache, ops[..|ops| - 1], env);
      var last := StepOp(t, prior.0, ops[|ops| - 1], env);
      (last.0, prior.1 + last.1)
  }

  /** The ids of a list of ops. */
  function OpIds(ops: seq<ShapeOp>): set<string>
    decreases |ops|
  {
    if |ops| == 0 then {} else OpIds(ops[..|ops| - 1]) + {ops[|ops| - 1].id}
  }

  /** An id is among the ops' ids exactly when some op carries it. */
  lemma {:induction false} OpIdsMembers(ops: seq<ShapeOp>, k: string)
    ensures k in OpIds(ops) <==> exists i :: 0 <= i < |ops| && ops[i].id == k
    decreases |ops|
  {
    if |ops| > 0 {
      var init := ops[..|ops| - 1];
      OpIdsMembers(init, k);
      if exists i :: 0 <= i < |init| && init[i].id == k {
        var i :| 0 <= i < |init| && init[i].id == k;
        assert ops[i].id == k;
      }
      if exists i :: 0 <= i < |ops| && ops[i].id == k {
        var i :| 0 <= i < |ops| && ops[i].id == k;
        if i < |init| {
          assert init[i].id == k;
        }
      }
    }
  }

  /** Ids of this call's ops end up cached; every other entry is kept as it
      was; nothing else is added. */
  lemma {:induction false} RunOpsCache(t: Transform, cache: map<string, ShapeOpState>, ops: seq<ShapeOp>, env: Env)
    ensures var c := RunOps(t, cache, ops, env).0;
      c.Keys == cache.Keys + OpIds(ops) && c - OpIds(ops) == cache - OpIds(ops)
    decreases |ops|
  {
    if |ops| > 0 {
      var init, op := ops[..|ops| - 1], ops[|ops| - 1];
      RunOpsCache(t, cache, init, env);
      var prior := RunOps(t, cache, init, env).0;
      var c := RunOps(t, cache, ops, env).0;
      assert c == prior[op.id := c[op.id]];
      UpdateThenRemove(prior, op.id, c[op.id], OpIds(init));
      UpdateThenRemove(cache, op.id, c[op.id], OpIds(init));
      RemoveTwice(cache, OpIds(init), {op.id});
    }
  }

  /** Removing a set of keys and then one more key removes their union;
      an entry added under that key disappears with it. */
  lemma UpdateThenRemove<K, V>(m: map<K, V>, k: K, v: V, ks: set<K>)
    ensures m[k := v] - (ks + {k}) == m - ks - {k}
  {
  }

  lemma RemoveTwice<K, V>(m: map<K, V>, a: set<K>, b: set<K>)
    ensures m - a - b == m - (a + b)
  {
  }

  /** `Transform::execute`: runs the ops in order over the cache and draws
      one pass with the concatenated vertices. */
  method Execute(t: Transform, ops: seq<ShapeOp>, env: Env) returns (t': Transform, pass: Pass)
    ensures t' == t.(cache := RunOps(t, t.cache, ops, env).0)
    ensures pass == Pass(RunOps(t, t.cache, ops, env).1, t.brightnessMod, t.saturationMod, t.chansMod)
  {
    var cache := t.cache;
    var vertices: seq<Vertex> := [];
    var i := 0;
    while i < |ops|
      invariant 0 <= i <= |ops|
      invariant (cache, vertices) == RunOps(t, t.cache, ops[..i], env)
    {
      assert ops[..i + 1][..i] == ops[..i];
      var prev := if ops[i].id in cache then Some(cache[ops[i].id]) else None;
      var next := Tick(t, env.centerOf(ops[i].base), env, prev);
      vertices := vertices + GenVertices(t, ops[i], next, env);
      cache := cache[ops[i].id := next];
      i := i + 1;
    }
    assert ops[..|ops|] == ops;
    t' := t.(cache := cache);
    pass := Pass(vertices, t.brightnessMod, t.saturationMod, t.chansMod);
  }
}
