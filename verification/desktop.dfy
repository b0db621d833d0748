/** The frame policy of eymo-desktop/src/main.rs: the per-frame time budget,
    the detection cache that lets every other frame reuse the previous
    frame's faces, and the single-image path.

    The clock becomes numbers: `detectMs` is the time since the frame began
    when the detection stage is checked, and `stmtMs(i)` the time when
    statement `i`'s check runs. The detector, the textures and the image
    files are not modelled: the detector's outcome is a parameter and the
    output is the list of render passes applied to the input frame. */
module Desktop {

  import opened Wrappers
  import opened Num
  import opened Text
  import opened ImgGeom
  import opened ImgFace
  import T = ImgTransform
  import Interp

  /** `check_time`: over budget once `elapsedMs` reaches the allowance; no
      allowance never fails. */
  function CheckTime(withinMs: Option<nat>, elapsedMs: nat, waypoint: string): (r: Result<()>)
    ensures r.Err? <==> withinMs.Some? && elapsedMs >= withinMs.value
    ensures r.Err? ==> |r.msg| > |waypoint|
  {
    match withinMs
    case Some(ms) =>
      if elapsedMs >= ms then
        Err(NatToString(elapsedMs) + "ms exceeds allowed time of " + NatToString(ms) + "ms at " + waypoint)
      else Ok(())
    case None => Ok(())
  }

  /** What the detection stage of a frame decides. */
  datatype Stage =
    | Failed(msg: string)                          // the detector failed: the frame fails
    | OverBudget                                   // the frame is returned unmodified
    | Proceed(detection: Detection, store: bool)   // the interpreter runs on `detection`

  /** The cache is taken; a cached detection is used as it is, otherwise
      the detector runs; then the budget is checked. */
  function DetectionStage(cache: Option<Detection>, detect: Result<Detection>,
                          withinMs: Option<nat>, detectMs: nat): (s: Stage)
    ensures cache.Some? ==> !s.Failed? && (s.Proceed? ==> s.detection == cache.value && !s.store)
    ensures cache.None? && detect.Err? ==> s.Failed?
    ensures cache.None? && s.Proceed? ==> s.store && s.detection == detect.value
    ensures s.OverBudget? <==>
      (cache.Some? || detect.Ok?) && withinMs.Some? && detectMs >= withinMs.value
  {
    var found :=
      match cache
      case Some(d) => Ok((d, false))
      case None => if detect.Ok? then Ok((detect.value, true)) else Err(detect.msg);
    if found.Err? then Failed(found.msg)
    else if CheckTime(withinMs, detectMs, "Face Detection").Err? then OverBudget
    else Proceed(found.value.0, found.value.1)
  }

  /** The cache a frame leaves behind: the detection, when it was computed
      by this frame and the frame got past its budget check; otherwise
      empty, because it was taken. */
  function CacheAfter(s: Stage): (c: Option<Detection>)
    ensures c.Some? <==> s.Proceed? && s.store
    ensures c.Some? ==> c.value == s.detection
  {
    if s.Proceed? && s.store then Some(s.detection) else None
  }

  /** The interpreter's inputs for a frame: its statements check the same
      budget, measured from the same frame start. */
  function StmtFrame(d: Detection, forehead: Face -> Polygon, env: T.Env,
                     withinMs: Option<nat>, stmtMs: nat -> nat): (f: Interp.Frame)
    ensures f.detection == d
    ensures forall i: nat :: f.timedOut(i) <==> withinMs.Some? && stmtMs(i) >= withinMs.value
  {
    var timedOut := (i: nat) => CheckTime(withinMs, stmtMs(i), "Transform " + NatToString(i)).Err?;
    assert forall i: nat :: timedOut(i) == CheckTime(withinMs, stmtMs(i), "Transform " + NatToString(i)).Err?;
    Interp.Frame(d, forehead, env, timedOut)
  }

  datatype Output = Unmodified | Rendered(passes: seq<T.Pass>)

  predicate Fits(d: Detection) {
    |d| <= I32_MAX
  }

  /** `process_frame`. A detector failure is an error the frame loop logs
      before going on to the next frame; an error of the interpreter is a
      panic (`execute` returns no `Result`), which nothing catches, so it
      ends the program: `panicked` tells the two apart, and after a panic
      there is no next frame. */
  method ProcessFrame(it: Interp.Interpreter, cache: Option<Detection>, detect: Result<Detection>,
                      withinMs: Option<nat>, detectMs: nat, stmtMs: nat -> nat,
                      forehead: Face -> Polygon, env: T.Env)
    returns (r: Result<Output>, panicked: bool, it': Interp.Interpreter, cache': Option<Detection>)
    requires Interp.ValidInterpreter(it)
    requires cache.Some? ==> Fits(cache.value)
    requires detect.Ok? ==> Fits(detect.value)
    ensures panicked ==> r.Err?
    ensures var s := DetectionStage(cache, detect, withinMs, detectMs);
      s.Failed? ==> r.Err? && !panicked && it' == it && cache' == None
    ensures var s := DetectionStage(cache, detect, withinMs, detectMs);
      s.OverBudget? ==> r == Ok(Unmodified) && !panicked && it' == it && cache' == None
    ensures var s := DetectionStage(cache, detect, withinMs, detectMs);
      s.Proceed? ==>
        var f := StmtFrame(s.detection, forehead, env, withinMs, stmtMs);
        var k := Interp.Cutoff(f.timedOut, 0, |it.transforms|);
        (r.Ok? <==> Interp.OkUpTo(it, f, k)) && (panicked <==> r.Err?) &&
        (r.Ok? ==> r.value.Rendered? && Interp.Done(it, f, k, it'.transforms, r.value.passes) &&
                   cache' == CacheAfter(s))
  {
    var s := DetectionStage(cache, detect, withinMs, detectMs);
    match s {
      case Failed(msg) =>
        return Err(msg), false, it, None;
      case OverBudget =>
        return Ok(Unmodified), false, it, None;
      case Proceed(d, store) =>
        var f := StmtFrame(d, forehead, env, withinMs, stmtMs);
        var out := Interp.Execute(it, f);
        if out.Err? {
          return Err(out.msg), true, it, None;
        }
        return Ok(Rendered(out.value.1)), false, out.value.0, CacheAfter(s);
    }
  }

  /** `process_image`: one frame with an empty cache, so the detector
      always runs and its failure fails the image; the interpreter is
      updated as by any frame, and its panic ends the program. */
  method ProcessImage(it: Interp.Interpreter, detect: Result<Detection>, withinMs: Option<nat>,
                      detectMs: nat, stmtMs: nat -> nat, forehead: Face -> Polygon, env: T.Env)
    returns (r: Result<Output>, panicked: bool, it': Interp.Interpreter)
    requires Interp.ValidInterpreter(it)
    requires detect.Ok? ==> Fits(detect.value)
    ensures detect.Err? ==> r.Err? && !panicked
    ensures panicked ==> r.Err? && detect.Ok?
    ensures detect.Ok? && withinMs.Some? && detectMs >= withinMs.value ==> r == Ok(Unmodified)
    ensures r.Ok? && r.value.Rendered? ==> (detect.Ok? &&
      var f := StmtFrame(detect.value, forehead, env, withinMs, stmtMs);
      Interp.Done(it, f, Interp.Cutoff(f.timedOut, 0, |it.transforms|), it'.transforms, r.value.passes))
  {
    var cache';
    r, panicked, it', cache' := ProcessFrame(it, None, detect, withinMs, detectMs, stmtMs, forehead, env);
  }

  /** A frame that computes its detection and gets past its budget check
      leaves it cached; the next frame then uses it without consulting the
      detector and leaves the cache empty again, so the frame after runs
      the detector: detection runs on every other such frame. */
  lemma DetectionEveryOtherFrame(detect1: Result<Detection>, detect2: Result<Detection>,
                                 withinMs: Option<nat>, ms1: nat, ms2: nat)
    requires DetectionStage(None, detect1, withinMs, ms1).Proceed?
    ensures CacheAfter(DetectionStage(None, detect1, withinMs, ms1)) == Some(detect1.value)
    ensures var c := Some(detect1.value);
      DetectionStage(c, detect2, withinMs, ms2) == DetectionStage(c, Err("unused"), withinMs, ms2) &&
      !DetectionStage(c, detect2, withinMs, ms2).Failed? &&
      CacheAfter(DetectionStage(c, detect2, withinMs, ms2)) == None
  {
  }

  /** An over-budget detection stage leaves the cache empty even when the
      detection was freshly computed, so the next frame runs the detector
      again. */
  lemma OverBudgetDropsDetection(cache: Option<Detection>, detect: Result<Detection>,
                                 withinMs: Option<nat>, ms: nat)
    requires DetectionStage(cache, detect, withinMs, ms).OverBudget?
    ensures CacheAfter(DetectionStage(cache, detect, withinMs, ms)) == None
    ensures DetectionStage(CacheAfter(DetectionStage(cache, detect, withinMs, ms)), detect, withinMs, ms) ==
      DetectionStage(None, detect, withinMs, ms)
  {
  }

  /** Without a budget no check fails: the detection stage proceeds
      whenever a detection is at hand, and every statement runs. */
  lemma NoBudgetRunsEverything(it: Interp.Interpreter, cache: Option<Detection>, detect: Result<Detection>,
                               d: Detection, detectMs: nat, stmtMs: nat -> nat,
                               forehead: Face -> Polygon, env: T.Env)
    ensures cache.Some? || detect.Ok? ==> DetectionStage(cache, detect, None, detectMs).Proceed?
    ensures Interp.Cutoff(StmtFrame(d, forehead, env, None, stmtMs).timedOut, 0, |it.transforms|) == |it.transforms|
  {
    var f := StmtFrame(d, forehead, env, None, stmtMs);
    Interp.CutoffWithoutTimeouts(f.timedOut, 0, |it.transforms|);
  }

  /** Statements share the frame's budget: a statement whose check runs once
      the allowance is used up, and every statement after it, is cut off. */
  lemma BudgetCutsOff(it: Interp.Interpreter, d: Detection, withinMs: nat, stmtMs: nat -> nat,
                      forehead: Face -> Polygon, env: T.Env, i: nat)
    requires i < |it.transforms| && stmtMs(i) >= withinMs
    ensures Interp.Cutoff(StmtFrame(d, forehead, env, Some(withinMs), stmtMs).timedOut, 0, |it.transforms|) <= i
  {
    var f := StmtFrame(d, forehead, env, Some(withinMs), stmtMs);
    assert f.timedOut(i);
  }
}
