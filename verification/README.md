# eymo, modelled in Dafny

eymo is a live face filter. A small rule language names a face part (an eye, the mouth, the nose, the whole face, or a rectangle literal) and the operations to apply to it: copy, swap, scale, rotate, translate, flip, drift, spin and colour changes. A detector supplies landmark polygons, and wgpu renders the result. Two code generations coexist in the repository. The newer one is the `eymo-img` crate, driven by `eymo-desktop`. The older one lives under `src/`. This project models the pure, sequential logic of both, as immutable datatypes and functions over sequences and maps. It stops where the GPU, the neural networks, the camera and the clock begin.

What is modelled, module by module:

- **Interp** is the rule interpreter of `eymo-img/src/lang.rs`. It builds one transform per statement and applies the shape-agnostic operations at build time. Each frame it resolves the target, copy and swap selectors (none, `abs n`, `rel n`) against the detected faces, and runs the statements in order until the time budget runs out. **Ast** is the syntax tree of `eymo-img/src/lang/ast.rs`, with the `Display` texts of face references.
- **ImgTransform** is the per-statement transform of `eymo-img/src/transform.rs`. It covers the `ShapeOp` constructors, `new` and the setters, and the per-op animation state kept in a map keyed by op id. `tick` advances that state: spin accumulates and drift bounces off the frame edges through `mirror_x`/`mirror_y`. It also covers the vertex-group choice of `gen_vertices` and the cache loop of `execute`.
- **ImgRect**, **ImgPolygon** and **ImgUtil** are the integer geometry of `eymo-img/src/shapes`. **ImgRect** is the centre-based `u32` rectangle: edges, corner orders, ordering, scaling and overlap. **ImgPolygon** gives extremes, centre, stretching and the bounding box. **ImgUtil** holds `rounded_div` and `mult`. **ImgGeom**, **ImgShape** and **ImgFace** hold the point, shape and face records.
- **Landmarks** covers `eymo-img/src/pipeline/landmarks.rs` without the network: the landmark tables, the crop quad, and reading the mesh back into feature polygons.
- **Desktop** is the frame policy of `eymo-desktop/src/main.rs`. Each frame has one time budget. A detection cache lets every other frame reuse the previous faces. Single images take their own path.
- **Live** is the older interpreter of `src/lang.rs`, with its per-frame transform cache keyed by `rect-{stmt}` and `face-{face}-{stmt}`. **OldTransform** is `src/transform.rs`: its defaults, setters, rotation uniform and vertex list. **OldShape** and **SatRect** are the older shapes, whose rectangle edges saturate at 0. **FloatRect** is the `RectF32` shared by all generations.
- **Triangles** and **Vertices** are the vertex records and the index-arithmetic triangulation of `src/imggpu/vertex.rs` and `eymo-img/src/imggpu/vertex.rs`. **GpuUtil** is the row padding of `src/imggpu/util.rs`.
- **Anchors**, **Keypoints**, **CvFace** and **CvShapes** are detector post-processing that runs no model. They cover the BlazeFace anchor grid, the confidence filter and overlap dedupe of `process_result`, the keypoint-to-feature boxes, and the top-left rectangle with its feature labels.
- **Num**, **Overlap**, **Text** and **Wrappers** are shared foundations. **Num** holds the machine-number semantics the Rust code relies on. **Overlap** is the one overlap percentage every rectangle type computes. **Text** is decimal formatting with its inverse. **Wrappers** holds `Option` and `Result`.

How the source's numbers are represented:

- An `f32` is a `real`, and `round()` rounds half away from zero.
- Float-to-integer `as` casts saturate.
- `u32` values are `nat`. An unsigned subtraction that would underflow becomes a precondition.
- `%` on `i32` truncates toward zero.
- `i32 as usize` wraps, and so does `usize as i32`.

How the source's failures are represented:

- A Rust panic is an `Err` in the model when the source lets it happen on ordinary input. Examples are a relative index into zero faces, a negative index after the truncating remainder, and an `i32` overflow of a relative index (the panic of a debug build; a release build would wrap instead). Nothing in eymo-desktop catches a panic, so it ends the whole program, not just the frame. `Desktop.ProcessFrame` and `Desktop.ProcessImage` therefore report a panic separately from an ordinary error, and the properties about successive frames (`Desktop.DetectionEveryOtherFrame`, `Desktop.OverBudgetDropsDetection`) concern frames that did not panic.
- An `anyhow` error is an `Err` too.

What the source reads from a device or the clock arrives as a parameter. That covers elapsed times, cosine and sine, `Point::rotate`, the detector's outcome and the missing `forehead` feature.

## Model

| member | source | states |
|---|---|---|
| Anchors.GenAnchor | src/pipeline/detection/anchors.rs:103-153 | an offset of 896 or more is an error with the message `Cannot handle offset <offset> (must be <896)`; any other offset yields the unit cell, on the layer's column-major grid, of the last layer that starts at or before it |
| Anchors.BuildLayers | src/pipeline/detection/anchors.rs:117-127 | the nested stride and scale loops build exactly the eight (start, stride) layers, each starting where the cells of the previous ones end |
| Anchors.FindLayer | src/pipeline/detection/anchors.rs:129-139 | the search stops at the first layer starting past the offset, so it returns the stride of the last layer starting at or before it and the offset into that layer |
| Anchors.LayerStrides | src/pipeline/detection/anchors.rs:5-8 | offsets 0 to 511 fall in stride-8 layers and 512 to 895 in stride-16 layers, and the index within a layer fits its grid |
| Anchors.CellOnGrid | src/pipeline/detection/anchors.rs:141-152 | every anchor is a 1 by 1 box whose coordinates are multiples of the stride inside the 128 by 128 input |
| Anchors.Scale | src/pipeline/detection/anchors.rs:159-165 | one stride gives the midpoint of the two scales; with several, the first gives the minimum and the last the maximum |
| Anchors.ScaleAt | src/pipeline/detection/anchors.rs:159-165 | with several strides, scale `k` is `k` equal increments above the minimum |
| Anchors.ScaleSteps | src/pipeline/detection/anchors.rs:159-165 | consecutive scales differ by the same increment |
| Ast.PartName | eymo-img/src/lang/ast.rs:64-68 | a part displays as its variant name |
| Ast.IdxText | eymo-img/src/lang/ast.rs:43-50 | an index displays as `abs` or `rel` followed by its decimal value |
| Ast.IdxSuffixRoundTrip | eymo-img/src/lang/ast.rs:43-50 | the index text, or the empty text for no index, reads back to the index |
| Ast.NamePrefixes | eymo-img/src/lang/ast.rs:52-68 | the only part names that are prefixes of other part names are `LEye` and `REye` |
| Ast.OtherPartFails | eymo-img/src/lang/ast.rs:28-68 | in the display of a reference to one part, no other part's name is followed by a readable index |
| Ast.ParseWithFinds | eymo-img/src/lang/ast.rs:28-35 | trying the parts in turn on a reference's display text finds that reference |
| Ast.FaceRefRoundTrip | eymo-img/src/lang/ast.rs:28-68 | every face reference reads back from its display text |
| Ast.FaceRefTextInjective | eymo-img/src/lang/ast.rs:28-68 | distinct face references display differently |
| CvFace.FeatureBox | src/cv/face.rs:12-75 | a feature box has the kind asked for, the rounded fractions of the face as its size, and the keypoint at its centre (rounded down) |
| CvFace.MouthBelowNose | src/cv/face.rs:24-30 | the mouth centre is in the nose's column and below it by at most the face height, and on the nose itself for a face of no height |
| CvFace.FeaturesFor | src/cv/face.rs:11-80 | a nose keypoint adds a nose box and then a mouth box, an eye or ear keypoint adds one box of its kind, any other index adds nothing |
| CvFace.FaceDetectionToFeatures | src/cv/face.rs:6-89 | the face keeps the detection's bounds, and holds two features per nose keypoint plus one per eye or ear keypoint, grouped per keypoint in keypoint order |
| CvFace.FeatureCount | src/cv/face.rs:11-80 | the number of features is two per nose keypoint plus one per eye or ear keypoint |
| CvFace.FeaturesInKeypointOrder | src/cv/face.rs:11-80 | each keypoint's features come together, ahead of those of the keypoints after it |
| CvFace.AllFiveKeypoints | src/cv/face.rs:11-80 | five keypoints with indices 0 to 4 give nose, mouth, left eye, right eye, left ear and right ear, in that order |
| CvShapes.Label | src/cv/shapes.rs:29-40 | every feature kind has a non-empty label |
| CvShapes.LabelsDistinct | src/cv/shapes.rs:29-40 | two features have the same label exactly when they have the same kind |
| CvShapes.Area | src/cv/shapes.rs:110-112 | the area computed from the edges is width times height |
| CvShapes.FromCenter | src/cv/shapes.rs:114-121 | the rectangle has the given size and its corner lies half the size before the centre; the `u32` subtraction needs the centre at least half the size from the origin |
| CvShapes.FromCenterContainsCenter | src/cv/shapes.rs:114-121 | the centre lies inside the rectangle built around it |
| CvShapes.OverlapPct | src/cv/shapes.rs:123-142 | the percentage lies in 0 to 100, is 0 exactly when the rectangles share no area, and is 100 exactly when both equal their non-empty intersection |
| CvShapes.OverlapPctSymmetric | src/cv/shapes.rs:123-142 | the percentage does not depend on the order of the two rectangles |
| CvShapes.OverlapExtremes | src/cv/shapes.rs:123-142 | rectangles apart on either axis, or two empty ones, overlap 0%; a non-empty rectangle overlaps itself 100% |
| Overlap.SharedAreaFacts | src/cv/shapes.rs:124-133 | the intersection area is the same from either side and fits in each box |
| Overlap.SeparatedShareNothing | src/cv/shapes.rs:129-133 | boxes apart on either axis share no area |
| Overlap.Pct | src/cv/shapes.rs:135-141 | the percentage lies in 0 to 100, is 0 exactly when nothing is shared and 100 exactly when the shared area is all of both areas; an empty union gives 0 |
| Desktop.CheckTime | eymo-desktop/src/main.rs:199-215 | the check fails exactly when there is an allowance and the elapsed time has reached it; the message names the waypoint |
| Desktop.DetectionStage | eymo-desktop/src/main.rs:170-185 | a cached detection is used without the detector and never stored again; without one the detector's failure fails the frame; the stage is over budget exactly when a detection is at hand and the allowance is used up |
| Desktop.StmtFrame | eymo-desktop/src/main.rs:187-189 | statement `i` is cut off exactly when there is an allowance and its check runs at or after it |
| Desktop.ProcessFrame | eymo-desktop/src/main.rs:155-197 | a failed detection fails the frame without a panic and clears the cache; an over-budget detection returns the input unmodified; otherwise the statements run up to the first failed time check, and the frame succeeds exactly when none of them panics, leaving the cache as `CacheAfter` says; a panic is flagged, as it ends the program |
| Desktop.ProcessImage | eymo-desktop/src/main.rs:141-153 | an image runs as one frame with an empty cache: a detector failure fails it without a panic, only a successful detection can lead to a panic, an over-budget detection leaves it unmodified, and a rendered result is the statements' passes |
| Desktop.DetectionEveryOtherFrame | eymo-desktop/src/main.rs:170-194 | a frame that computes and keeps its detection lets the next frame skip the detector, after which the cache is empty again |
| Desktop.OverBudgetDropsDetection | eymo-desktop/src/main.rs:179-185 | an over-budget frame leaves no cached detection, so the next frame detects afresh |
| Desktop.NoBudgetRunsEverything | eymo-desktop/src/main.rs:203-212 | without an allowance the detection stage always proceeds and no statement is cut off |
| Desktop.BudgetCutsOff | eymo-img/src/lang.rs:51-58 | once a statement's check runs past the allowance, it and every later statement are cut off |
| Interp.FaceShapeReadsItsPart | eymo-img/src/lang.rs:239-251 | a part resolves to its own polygon and to nothing else of the face: replacing that polygon changes the part's shape to it, replacing another part's leaves it alone; the forehead is computed from the face |
| Interp.CheckedI32 | eymo-img/src/lang.rs:219-222 | an `i32` sum succeeds exactly when it is in range, and then keeps its value |
| Interp.RelativeIndex | eymo-img/src/lang.rs:218-222 | a relative index succeeds exactly when there are faces and the `i32` sum does not overflow, and is then the `usize` cast of the truncated remainder |
| Interp.Shapes | eymo-img/src/lang.rs:212-237 | absolute and unnumbered references never panic, and every shape returned is the named part of some detected face |
| Interp.ShapesAbsoluteAndPlain | eymo-img/src/lang.rs:212-237 | an absolute number gives that face's part or nothing; no number gives the target face's part or nothing, and without a target every face's part in detection order |
| Interp.ShapesRelative | eymo-img/src/lang.rs:218-225 | with no faces a relative reference panics; a non-negative `rel + target` reads face `(rel + target) mod len`; a negative one reads face 0 when `len` divides it and panics otherwise |
| Interp.ShapesRelativeIndex | eymo-img/src/lang.rs:218-225 | seen from face `t`, a relative reference reads the `usize` cast of the truncated remainder of `rel + t`, and succeeds exactly when that is a face |
| Interp.NegativeRemainder | eymo-img/src/lang.rs:222 | for a negative dividend the truncated remainder is 0 exactly when the divisor divides it |
| Interp.CopyOpsFor | eymo-img/src/lang.rs:164-182 | each copy reads from the source and writes to a destination; a rectangle literal gives one copy with id `{prefix}-{idx}` |
| Interp.CopyOps | eymo-img/src/lang.rs:163-184 | every op of a `CopyTo` is a copy from the source |
| Interp.SwapOps | eymo-img/src/lang.rs:185-200 | every op of a `SwapWith` is a swap with the source; a rectangle literal gives one swap with id `{prefix}-rect` |
| Interp.OpsFor | eymo-img/src/lang.rs:161-203 | only `CopyTo` and `SwapWith` contribute ops, each reading from the source |
| Interp.CollectOps | eymo-img/src/lang.rs:159-203 | every collected op reads from the source and copies or swaps |
| Interp.CollectNothing | eymo-img/src/lang.rs:161-203 | operations without `CopyTo` and `SwapWith` collect no ops |
| Interp.ShapeOpsForSrcShape | eymo-img/src/lang.rs:152-210 | the result is never empty, every op reads from the source, and a lone op that neither copies nor swaps is the one drawing the source onto itself |
| Interp.OnlyOnShape | eymo-img/src/lang.rs:205-207 | a statement without copies or swaps yields exactly the op drawing its source onto itself under the prefix |
| Interp.SwapCounts | eymo-img/src/lang.rs:185-194 | a swap with a reference that resolves to shapes gives one swap per shape, with those shapes in order |
| Interp.CopyCounts | eymo-img/src/lang.rs:163-184 | a `CopyTo` of rectangle literals gives one copy per literal, to that literal, in order |
| Interp.PerFaceTarget | eymo-img/src/lang.rs:122-147 | an unnumbered source targets its own face; a relative one fails exactly when `idx - rel` leaves `i32`, and otherwise targets `(idx - rel) mod len` when that is not negative, and a face only when `len` divides it |
| Interp.PerFace | eymo-img/src/lang.rs:122-147 | every face contributes at least one op |
| Interp.ShapeOps | eymo-img/src/lang.rs:95-150 | a rectangle literal is resolved without a target; an absolute face number with that face as target, or nothing without such a face; no faces give nothing; otherwise every face contributes |
| Interp.OnShapeEach | eymo-img/src/lang.rs:136-147 | one op per face, in detection order, drawing that face's part onto itself under the id `{prefix}-{face}` |
| Interp.EveryFaceOnShape | eymo-img/src/lang.rs:136-147 | a statement on every face without copies or swaps yields exactly those per-face ops |
| Interp.ApplyOne | eymo-img/src/lang.rs:77-91 | copies and swaps leave the transform unchanged at build time, and no operation touches the per-op cache |
| Interp.ApplyShapeAgnostic | eymo-img/src/lang.rs:76-93 | applying the operations never touches the per-op cache |
| Interp.ApplySnoc | eymo-img/src/lang.rs:77-92 | operations take effect in order, so a later one acts on the result of the earlier ones |
| Interp.ShapeAgnostic | eymo-img/src/lang.rs:90 | the operations kept at build time are no copies or swaps |
| Interp.PerFrameOpsIgnored | eymo-img/src/lang.rs:90 | building with or without the copies and swaps gives the same transform |
| Interp.BuildTransform | eymo-img/src/lang.rs:70-74 | a built transform starts with an empty cache |
| Interp.BuildExamples | eymo-img/src/lang.rs:70-93 | a single `scale` sets that scale on a new transform; copies and swaps alone build exactly a new transform |
| Interp.New | eymo-img/src/lang.rs:28-37 | one built transform per statement, paired with its statement, in source order |
| Interp.Cutoff | eymo-img/src/lang.rs:51-58 | the first statement whose time check fails, so every statement before it passes its check |
| Interp.StepStmt | eymo-img/src/lang.rs:60-63 | a statement's turn keeps its syntax, renders at most one pass, and changes the transform only when it renders |
| Interp.CutoffWithoutTimeouts | eymo-img/src/lang.rs:51-58 | when no check fails every statement runs |
| Interp.PassesAt | eymo-img/src/lang.rs:61-63 | a statement renders at most one pass |
| Interp.Passes | eymo-img/src/lang.rs:51-66 | the statements before `m` render at most `m` passes |
| Interp.DoneStep | eymo-img/src/lang.rs:51-64 | one more statement's turn extends the state after the statements before it |
| Interp.OkUpToStep | eymo-img/src/lang.rs:51-64 | a statement that resolves extends the run of statements that resolve |
| Interp.EntriesStep | eymo-img/src/lang.rs:51-64 | updating entry `m` keeps the entries of the statements before it |
| Interp.PassesStep | eymo-img/src/lang.rs:61-63 | a statement's passes follow those of the statements before it |
| Interp.StepOfOps | eymo-img/src/lang.rs:60-63 | with no ops the statement is left alone; with ops its transform runs them and renders one pass |
| Interp.BeforeCutoff | eymo-img/src/lang.rs:51-58 | a statement before the cutoff that passes its check is followed by one still within the cutoff |
| Interp.AtCutoff | eymo-img/src/lang.rs:51-58 | the loop stops exactly at the cutoff |
| Interp.Execute | eymo-img/src/lang.rs:39-67 | the statements run in order up to the first failed time check; the frame succeeds exactly when none of them panics, each ran statement is updated by its turn, the rest are unchanged, and the passes come in statement order |
| ImgTransform.SettersAreLocal | eymo-img/src/transform.rs:106-153 | each setter changes its own fields and nothing else, the cache included |
| ImgTransform.ResetsOverride | eymo-img/src/transform.rs:134-153 | a spin discards an earlier rotation and a drift an earlier translation, while a rotation after a spin keeps the spin rate |
| ImgTransform.FlipIn | eymo-img/src/transform.rs:708-712 | the result stays within the range, and a value inside the range is reflected about its middle |
| ImgTransform.FlipInvolution | eymo-img/src/transform.rs:708-712 | reflecting twice within the range restores the value |
| ImgTransform.MirrorY | eymo-img/src/transform.rs:718-724 | a heading below 180 degrees is mirrored into (0, 180], one from 180 on into (180, 360] |
| ImgTransform.MirrorInvolutions | eymo-img/src/transform.rs:714-724 | `mirror_x` undoes itself, and `mirror_y` undoes itself and stays within (0, 360] |
| ImgTransform.StartOf | eymo-img/src/transform.rs:188-201 | each field starts from the op's previous value when it has one, else from the configured value, else from zero |
| ImgTransform.BounceLands | eymo-img/src/transform.rs:226-244 | a position inside the frame is left alone with its heading; an overshoot of at most one frame dimension is reflected back inside with the heading mirrored |
| ImgTransform.Tick | eymo-img/src/transform.rs:183-253 | spin advances the rotation from where the op left it; drift moves the op and keeps its speed; without drift the configured translation is used |
| ImgTransform.StillTickIsEmpty | eymo-img/src/transform.rs:183-253 | a transform with nothing configured leaves a new op at rest |
| ImgTransform.SpinAccumulates | eymo-img/src/transform.rs:194-205 | two ticks turn as far as one tick over the summed times, because each tick starts from the previous rotation |
| ImgTransform.DriftStaysInFrame | eymo-img/src/transform.rs:210-247 | a drifting op whose next centre overshoots by at most one frame dimension ends with its centre inside the frame |
| ImgTransform.DriftAtRest | eymo-img/src/transform.rs:210-247 | with no time elapsed a drifting op inside the frame keeps its translation, speed and heading |
| ImgTransform.Groups | eymo-img/src/transform.rs:260-281 | every op projects at least one group, each reading from the op's base or its swap partner |
| ImgTransform.ConstructorGroups | eymo-img/src/transform.rs:255-282 | a swap projects both directions, a copy projects base to destination, and a plain op projects its base onto itself |
| ImgTransform.OpIdsMembers | eymo-img/src/transform.rs:165-170 | an id is among the ops' ids exactly when some op carries it |
| ImgTransform.RunOpsCache | eymo-img/src/transform.rs:165-170 | after a frame the cache holds the old entries and one entry per op id; entries of other ids are kept as they were |
| ImgTransform.Execute | eymo-img/src/transform.rs:155-181 | the ops run in order, each ticking its cached state and putting it back under its id; one pass draws their concatenated vertices with the transform's colour modifiers |
| Live.IdStringInjective | src/lang.rs:110-134 | two keys are the same string exactly when they name the same statement and face |
| Live.FaceShapeReadsItsPart | src/lang.rs:236-247 | a part resolves to its own landmark polygon and to nothing else of the face: replacing that polygon changes the part's shape to it, replacing another part's leaves it alone |
| Live.MatchingFaces | src/lang.rs:220-232 | without a target every face's part, in order; with a target only the target face's part |
| Live.Shapes | src/lang.rs:205-234 | a numbered reference gives that face's part when it exists and, with a target, is the target; an unnumbered one gives the target's part, or without a target every face's part in order |
| Live.Resolve | src/lang.rs:160-163 | a rectangle literal resolves to itself |
| Live.DestinationsAppend | src/lang.rs:157-177 | resolving destinations piecewise gives the concatenation of the pieces |
| Live.RectDestinations | src/lang.rs:157-178 | a list of rectangle literals resolves to those rectangles, in order |
| Live.CallFor | src/lang.rs:153-201 | every operation makes its setter call, except a swap with a face reference that resolves to nothing; a swap uses the first shape found; write and copy destinations are resolved in order |
| Live.OpCalls | src/lang.rs:152-202 | a list of operations makes at most one call per operation |
| Live.ApplyOperations | src/lang.rs:146-203 | applying operations keeps the transform's id and creation shape |
| Live.ApplyOperationsLog | src/lang.rs:146-203 | applying operations appends exactly their calls, in operation order |
| Live.OneCallPerOperation | src/lang.rs:179-193 | without swaps against face references there is exactly one call per operation |
| Live.BuildPerFace | src/lang.rs:129-141 | one transform per face, and the ids of exactly those faces taken out of the cache |
| Live.BuildTransforms | src/lang.rs:100-144 | an absolute face number past the detection is the only error, with the message `No matching faces found for ` and the `Debug` text of the face reference; a rectangle gives the one transform `RectTransformFacts` describes; a numbered face gives that face's transform; an unnumbered one gives one per face; the cache left is the old cache without the ids built |
| Live.RectTransformFacts | src/lang.rs:85-115 | a rectangle's transform carries the id `rect-{stmt}`; a cached one keeps its history, gains the rectangle and then the operations' calls, with no target face; a new one starts from the rectangle with only those calls |
| Live.PerFaceInDetectionOrder | src/lang.rs:131-139 | face `k`'s transform sits at position `k`, built from the cache the statement started with |
| Live.FaceTransformWithoutEarlier | src/lang.rs:131-139 | the ids taken out for earlier faces do not change a later face's transform |
| Live.BuildPerFaceHead | src/lang.rs:131-139 | the first face's transform comes first |
| Live.BuildPerFaceStep | src/lang.rs:131-139 | after the first face, the rest are built from the cache without its id |
| Live.FaceTransformOtherEntry | src/lang.rs:85-98 | removing another id from the cache does not change a face's transform |
| Live.FaceTransformFacts | src/lang.rs:85-98 | a face's transform carries its id; a cached one keeps its history, gains the new shape and then the operations' calls; a new one starts from the face's part with only those calls |
| Live.SwapRemoveOrderIsFirstThenReversed | src/lang.rs:66-70 | draining with `swap_remove(0)` runs the first transform and then the others from last to first |
| Live.SwapRemoveKeepsElements | src/lang.rs:66-70 | draining with `swap_remove(0)` runs every built transform exactly once |
| Live.StepStatement | src/lang.rs:62-78 | a statement leaves only entries of the previous frame's cache, unchanged; a clear statement or a failed build runs nothing |
| Live.CacheOfKeys | src/lang.rs:69 | the new cache holds exactly the ids that ran, each transform under its own id |
| Live.CacheOfLast | src/lang.rs:69 | each cache entry is the last transform run under its id |
| Live.Store | src/lang.rs:66-70 | inserting the statement's transforms one by one extends the cache by them, later ones replacing earlier ones |
| Live.RunFromStep | src/lang.rs:53-79 | a statement that passes its time check runs its transforms before those of the statements after it |
| Live.Execute | src/lang.rs:39-82 | the statements run in order against the previous frame's cache until the first failed time check; every transform run is stored in a fresh cache under its id |
| Live.TimeoutStopsTheFrame | src/lang.rs:54-60 | a timed-out statement and all later ones run nothing |
| Live.SkippedStatements | src/lang.rs:72-77 | a clear statement, or one whose face number is past the detection, is skipped with the cache left alone |
| Live.BuildIds | src/lang.rs:100-144 | every transform a statement builds carries an id of that statement |
| Live.StepIds | src/lang.rs:62-78 | every transform a statement runs carries an id of that statement |
| Live.OnlyRebuiltIdsSurvive | src/lang.rs:50-69 | the cache a frame leaves holds only transforms rebuilt in this frame; every other entry of the previous frame is dropped |
| Num.Round | src/cv/face.rs:17 | `f32::round` gives the nearest integer, halves rounded away from zero, keeping the sign |
| Num.U32Sat | src/cv/face.rs:17 | a float `as u32` cast saturates at 0 and at `u32::MAX` and keeps values in range |
| Num.I32Sat | eymo-img/src/transform.rs:212-213 | a float `as i32` cast saturates at both `i32` bounds and keeps values in range |
| Num.RoundU32 | eymo-img/src/shapes/util.rs:5-7 | `round() as u32` stays within `u32` and sends negatives to 0 |
| Num.RoundI32 | src/cv/keypoints.rs:98-101 | `round() as i32` stays within `i32` |
| Num.TDiv | eymo-img/src/lang.rs:130 | signed `/` truncates toward zero |
| Num.TRem | eymo-img/src/lang.rs:219-222 | signed `%` takes the dividend's sign, stays below the divisor in size and completes the truncating division |
| Num.DownToEven | eymo-img/src/shapes/rect.rs:117-128 | edges half the size away from the centre span the size rounded down to even: an even number at most one below |
| Num.UsizeOfI32 | eymo-img/src/lang.rs:219-222 | `i32 as usize` keeps non-negative values and wraps negatives above `2^64 - 2^31` |
| Num.I32OfUsize | eymo-img/src/lang.rs:219-222 | `usize as i32` is an `i32` congruent to the input modulo `2^32` |
| Num.I32UsizeRoundTrip | eymo-img/src/lang.rs:219-222 | casting an `i32` to `usize` and back gives it back |
| Num.RoundMonotone | eymo-img/src/shapes/util.rs:5-7 | rounding never reverses the order of two values |
| Num.RoundOfInt | eymo-img/src/shapes/util.rs:1-7 | rounding an integral value gives it back |
| Num.RoundQuotient | eymo-img/src/shapes/util.rs:1-3 | rounding a quotient of naturals is the integer quotient rounded half up |
| ImgUtil.RoundedDiv | eymo-img/src/shapes/util.rs:1-3 | a positive divisor gives the quotient rounded half up, at most one above the dividend; a zero divisor gives 0 for 0 and saturates otherwise |
| ImgUtil.Mult | eymo-img/src/shapes/util.rs:5-7 | the product stays within `u32`, and a negative factor gives 0 |
| ImgUtil.RoundedDivByOne | eymo-img/src/shapes/util.rs:1-3 | dividing by one is the identity |
| ImgUtil.RoundedDivExamples | eymo-img/src/shapes/polygon.rs:96-103 | 10/3 and 10/4 give 3, 5/2 gives 3, 5/4 gives 1 and 20/4 gives 5 |
| ImgUtil.MultByOne | eymo-img/src/shapes/util.rs:5-7 | multiplying by one is the identity |
| ImgUtil.MultOfZero | eymo-img/src/shapes/util.rs:5-7 | zero stays zero under any factor |
| ImgUtil.MultMonotone | eymo-img/src/shapes/util.rs:5-7 | for non-negative factors a larger factor never gives a smaller result |
| ImgRect.EdgesAroundCenter | eymo-img/src/shapes/rect.rs:116-131 | the edges straddle the centre and span the size rounded down to even |
| ImgRect.FromTl | eymo-img/src/shapes/rect.rs:204-211 | the rectangle built from a corner has that corner as its left and top edges and the given size |
| ImgRect.Points | eymo-img/src/shapes/rect.rs:140-152 | four corners, starting at the top-right and going round the rectangle to the top-left, each sharing an edge with the next and the last with the first |
| ImgRect.ToPolygon | eymo-img/src/shapes/rect.rs:105-114 | four corners, starting at the top-left and going round the rectangle to the top-right, each sharing an edge with the next and the last with the first |
| ImgPolygon.CornerCoordinates | eymo-img/src/shapes/rect.rs:105-114 | the polygon's x coordinates are left, right, right, left and its y coordinates top, top, bottom, bottom |
| ImgRect.PointsArePolygonCorners | eymo-img/src/shapes/rect.rs:105-152 | both corner lists name the same four corners, in the polygon's order with neighbours swapped |
| ImgRect.CmpNat | eymo-img/src/shapes/rect.rs:45 | `u32::cmp` is `Less`, `Equal` or `Greater` exactly as the numbers compare |
| ImgRect.CmpLexicographic | eymo-img/src/shapes/rect.rs:43-57 | rectangles order by centre x, then centre y, then area |
| ImgRect.CmpAntisymmetric | eymo-img/src/shapes/rect.rs:43-57 | swapping the operands flips the order |
| ImgRect.CmpTransitive | eymo-img/src/shapes/rect.rs:43-57 | "not greater" is transitive |
| ImgRect.EqImpliesCmpEqual | eymo-img/src/shapes/rect.rs:37-57 | equal rectangles compare `Equal` |
| ImgRect.CmpEqualIsCoarserThanEq | eymo-img/src/shapes/rect.rs:37-57 | two rectangles of the same centre and area but different sides compare `Equal` and yet are not equal |
| ImgRect.LowFormsAgree | eymo-img/src/shapes/rect.rs:154-176 | the near edge comes out the same whether it is clamped before or after rounding |
| ImgRect.ScaleX | eymo-img/src/shapes/rect.rs:154-164 | the new left edge is the clamped, rounded one; the right edge stays within the cap and at most one pixel inside the rounded far edge; the other axis is unchanged |
| ImgRect.ScaleY | eymo-img/src/shapes/rect.rs:166-176 | the same on the vertical axis |
| ImgRect.Scale | eymo-img/src/shapes/rect.rs:178-183 | the scaled rectangle has defined edges, inside the two caps |
| ImgRect.LowAtOne | eymo-img/src/shapes/rect.rs:157 | at magnitude 1 the near edge is the old one, or 0 when that would be negative |
| ImgRect.HighAtOne | eymo-img/src/shapes/rect.rs:158 | at magnitude 1 the far edge of an odd size is one past the old one before the cap |
| ImgRect.ScaleXByOne | eymo-img/src/shapes/rect.rs:154-164 | scaling by 1 with room on both sides changes nothing |
| ImgRect.FromF32 | eymo-img/src/shapes/rect.rs:23-35 | the converted rectangle fits `u32`, has defined edges, and lies within the rounded rectangle's right and bottom edges |
| ImgRect.ScaleAtOneOrdered | eymo-img/src/shapes/rect.rs:32 | scaling by 1 within the rectangle's own edges keeps each pair of new edges ordered |
| ImgRect.ScaleStaysU32 | eymo-img/src/shapes/rect.rs:154-183 | a scaled rectangle fits `u32` |
| ImgRect.FromF32Interior | eymo-img/src/shapes/rect.rs:23-35 | a float rectangle that rounds to one inside the `u32` range keeps its rounded centre and loses the odd pixel of each side |
| ImgRect.ScaleXAtOneInside | eymo-img/src/shapes/rect.rs:154-164 | scaling by 1 within the own right edge keeps the centre and drops the odd pixel of the width |
| ImgRect.ScaleYAtOneInside | eymo-img/src/shapes/rect.rs:166-176 | scaling by 1 within the own bottom edge keeps the centre and drops the odd pixel of the height |
| ImgRect.OverlapWithin | eymo-img/src/shapes/rect.rs:213-223 | the shared area is the same from either side and fits in each rectangle's area |
| ImgRect.OverlapPct | eymo-img/src/shapes/rect.rs:213-232 | the percentage lies in 0 to 100, is 0 exactly when nothing is shared and 100 exactly when both areas equal the shared area |
| ImgRect.OverlapPctSymmetric | eymo-img/src/shapes/rect.rs:213-232 | the percentage does not depend on the order of the operands |
| ImgRect.SelfOverlapEven | eymo-img/src/shapes/rect.rs:213-232 | a rectangle with even, non-zero sides overlaps itself 100% |
| ImgRect.DisjointNoOverlap | eymo-img/src/shapes/rect.rs:213-232 | rectangles apart on either axis overlap 0% |
| FloatRect.FromCenterRoundTrip | src/shapes/rect.rs:35-53 | `from_center` followed by `center` gives back the centre, and the size is kept |
| FloatRect.AdjustMovesCenter | eymo-img/src/shapes/rect.rs:75-82 | `adjust` shifts the centre by exactly (dx, dy) and makes (dw, dh) the new size, not a change of size |
| FloatRect.AdjustUndo | eymo-img/src/shapes/rect.rs:75-82 | the opposite shift with the old size undoes an adjustment |
| FloatRect.ScaleUndo | eymo-img/src/shapes/rect.rs:84-91 | scaling by non-zero factors is undone by their reciprocals, and keeps the ratio of centre to size on each axis |
| FloatRect.ScaleCompose | eymo-img/src/shapes/rect.rs:84-91 | two scalings are one scaling by the products of the factors |
| GpuUtil.PaddedBytesPerRow | src/imggpu/util.rs:1-5 | the padded row is a multiple of 256 bytes, holds 4 bytes per pixel, wastes less than 256 bytes, and adds nothing to a row already aligned |
| GpuUtil.PaddingIsLeast | src/imggpu/util.rs:1-5 | no multiple of 256 that holds the row is smaller than the padded row |
| GpuUtil.IntDivRoundUp | src/imggpu/util.rs:7-13 | the result is a block count that holds the dividend, one fewer block would not, and nothing needs no blocks |
| GpuUtil.DivRoundUpIsLeast | src/imggpu/util.rs:7-13 | any block count that holds the dividend is at least the result |
| ImgPolygon.FoldMin | eymo-img/src/shapes/polygon.rs:27-43 | the `min` fold is at most the seed and every element, and is one of them |
| ImgPolygon.FoldMax | eymo-img/src/shapes/polygon.rs:33-49 | the `max` fold is at least the seed and every element, and is one of them |
| ImgPolygon.ExtremesAreTight | eymo-img/src/shapes/polygon.rs:27-49 | every point lies between the four extremes, and each extreme is some point's coordinate |
| ImgPolygon.ExtremesInRange | eymo-img/src/shapes/polygon.rs:33-49 | the maxima of `u32` points are `u32` values |
| ImgPolygon.Center | eymo-img/src/shapes/polygon.rs:15-25 | the centre lies inside the bounding box |
| ImgPolygon.HalfSpan | eymo-img/src/shapes/polygon.rs:22-23 | half a span, rounded half up, is `(d + 1) / 2` and never exceeds the span, so the centre cannot overflow |
| ImgPolygon.ToRect | eymo-img/src/shapes/polygon.rs:77-86 | the bounding rectangle's top-left corner is the minima and its size is the spans |
| ImgPolygon.ToRectBounds | eymo-img/src/shapes/polygon.rs:77-86 | every point lies in the bounding rectangle, up to the odd pixel a centre-based rectangle drops |
| ImgPolygon.RectRoundTrip | eymo-img/src/shapes/polygon.rs:77-86 | a rectangle turned into its corners and back keeps its centre and has each side rounded down to even |
| ImgPolygon.CornerExtremes | eymo-img/src/shapes/polygon.rs:27-49 | the extremes of a rectangle's corner polygon are its edges |
| ImgPolygon.RectCenterAgrees | eymo-img/src/shapes/polygon.rs:15-25 | a `u32` rectangle's corner polygon has the rectangle's centre |
| ImgPolygon.StretchCoord | eymo-img/src/shapes/polygon.rs:56-70 | a coordinate below the centre ends up `mult(distance, near)` below it, one above ends up `mult(distance, far)` above it, and the centre stays put |
| ImgPolygon.StretchPoint | eymo-img/src/shapes/polygon.rs:55-71 | a stretched point stays on its side of the centre on both axes |
| ImgPolygon.StretchAbout | eymo-img/src/shapes/polygon.rs:55-71 | every point is stretched, in place and in order |
| ImgPolygon.Stretch | eymo-img/src/shapes/polygon.rs:51-74 | stretching keeps the point count and no point crosses the centre |
| ImgPolygon.StretchByOne | eymo-img/src/shapes/polygon.rs:51-74 | factors of 1 leave the polygon unchanged |
| ImgPolygon.StretchByZero | eymo-img/src/shapes/polygon.rs:51-74 | factors of 0 put every point on the centre |
| Keypoints.U32OfI32 | src/cv/keypoints.rs:103 | `w as u32` keeps a non-negative size and wraps a negative one to `2^32 + w` |
| Keypoints.Scaled | src/cv/keypoints.rs:98-101 | a scaled, rounded coordinate is an `i32` |
| Keypoints.FaceBoxAroundCenter | src/cv/keypoints.rs:98-103 | for a non-negative scaled size the box has that size and the scaled centre lies half of it past the corner, up to the odd pixel; a negative scaled size wraps to at least 2^31 and puts the corner past the centre |
| Keypoints.KeypointAt | src/cv/keypoints.rs:129-145 | keypoint `k` is read from columns `5 + 3k` onward, and kept with index `k` exactly when its confidence reaches 0.85 |
| Keypoints.KeypointsFrom | src/cv/keypoints.rs:129-145 | at most one keypoint per remaining index, in ascending index order |
| Keypoints.AscendingOrdered | src/cv/keypoints.rs:129-145 | ascending keypoint lists have pairwise increasing indices, all below 5 |
| Keypoints.KeypointKept | src/cv/keypoints.rs:131-135 | a row's keypoint list holds index `j` if and only if that keypoint's confidence reaches 0.85 |
| Keypoints.KeypointsAscending | src/cv/keypoints.rs:128-145 | a detection's keypoints come in index order, each index at most once |
| Keypoints.SwapRemove | src/cv/keypoints.rs:112 | `swap_remove` drops exactly the one element and keeps the others |
| Keypoints.FirstDuplicate | src/cv/keypoints.rs:106-116 | the search stops at the first detection overlapping by more than 20%, and none before it does |
| Keypoints.AddRow | src/cv/keypoints.rs:91-147 | an unconfident row changes nothing; a row grows the list exactly when it is confident and overlaps nothing; otherwise it is dropped or ends up last, adding nothing but its own detection |
| Keypoints.ProcessResult | src/cv/keypoints.rs:84-151 | the loop over rows builds the detections row by row |
| Keypoints.AtMostOnePerConfidentRow | src/cv/keypoints.rs:91-147 | there are no more detections than rows of confidence at least 0.85 |
| Keypoints.DetectionsAreConfident | src/cv/keypoints.rs:91-147 | every detection kept is confident and is some row's box, keypoints and confidence |
| Keypoints.AddRowNew | src/cv/keypoints.rs:118-147 | the only detection a row can add is its own, and only when it is confident |
| Keypoints.DuplicateRule | src/cv/keypoints.rs:105-120 | against the first duplicate, a strictly more confident one wins and the row is dropped; otherwise the duplicate is removed and the row's detection is appended |
| Landmarks.TablesFit | eymo-img/src/pipeline/landmarks.rs:22-47 | the seven landmark tables have 37, 23, 19, 16, 16, 17 and 17 entries, all at most landmark 466 |
| Landmarks.LongMeshCoversTables | eymo-img/src/pipeline/landmarks.rs:316-319 | a mesh of more than `3 * 466 + 1` floats holds the x and y of every landmark the tables name |
| Landmarks.MeshPointLocal | eymo-img/src/pipeline/landmarks.rs:317-321 | a landmark's point depends only on its own x and y |
| Landmarks.ExtractFeature | eymo-img/src/pipeline/landmarks.rs:304-329 | one point per table entry, in table order, each rotated about the origin |
| Landmarks.FeatureAppend | eymo-img/src/pipeline/landmarks.rs:304-329 | reading two tables in turn is reading their concatenation |
| Landmarks.FeatureReadsOnlyItsLandmarks | eymo-img/src/pipeline/landmarks.rs:304-329 | meshes that agree on the named landmarks' x and y give the same polygon |
| Landmarks.ExtractResults | eymo-img/src/pipeline/landmarks.rs:230-302 | the face keeps the run rectangle as its bound and reads each of its seven features from its own table, with the sizes of those tables |
| Landmarks.RunPlacement | eymo-img/src/pipeline/landmarks.rs:237-241 | the scales times the input size give the rectangle's size, the offsets are its top-left corner and the rotation origin is its centre |
| Landmarks.PlacementMapsCropOntoBounds | eymo-img/src/pipeline/landmarks.rs:237-240 | the crop's corners land on the run rectangle's corners |
| Landmarks.CropQuad | eymo-img/src/pipeline/landmarks.rs:168-179 | six vertices at the corners of the clip square, forming two triangles that share a diagonal |
| Landmarks.CropQuadSamplesBound | eymo-img/src/pipeline/landmarks.rs:168-179 | every vertex samples the frame at the affine image of its clip position over the bound's edges, and all four corners are drawn |
| OldShape.BoundingRect | src/shapes/polygon.rs:17-37 | the rectangle's top-left corner is the points' minima and its size their spans |
| OldShape.BoundingRectContains | src/shapes/npoint.rs:10-31 | every point lies within the rectangle's left edge plus its width and top edge plus its height, while `right()` and `bottom()` fall one short of the maxima on an odd side |
| OldShape.RectRoundTrip | src/shapes/shape.rs:10-23 | a rectangle wrapped in a shape and converted back is unchanged |
| OldShape.NPointToRect | src/shapes/shape.rs:10-29 | a point list wrapped in a shape converts to its bounding box |
| OldTransform.NewDiffersOnlyInShape | src/transform.rs:40-46 | whatever shape the default holds, `new` differs from the default in the shape alone |
| OldTransform.SettersCommuteAndOverwrite | src/transform.rs:48-70 | setters of different fields commute, and a second call of the same setter overrides the first |
| OldTransform.RotUniformTracksRotation | src/transform.rs:41-166 | a new transform hands the shader no rotation and `set_rot_degrees` hands it that angle's cosine and sine; two transforms hand it the same uniform exactly when neither rotates or both rotate by angles of equal cosine and sine |
| OldTransform.MakeVertexScaling | src/transform.rs:269-287 | at unit scale the clip position is the plain pixel-to-clip mapping, and the top-left pixel stays at clip (-1, 1) at any scale |
| OldTransform.ShapeVertices | src/transform.rs:289-308 | a point list gives one vertex per point, in order; a rectangle gives its top-right, top-left, bottom-left and bottom-right corners |
| OldTransform.TransformVertices | src/transform.rs:268-311 | the triangulated list has three vertices for each of the `n - 2` triangles of an `n`-point polygon, six for a rectangle, all taken from the shape's vertices |
| OldTransform.RectVertices | src/transform.rs:296-310 | a rectangle is drawn as the triangles (top-right, top-left, bottom-left) and (bottom-left, bottom-right, top-right) |
| SatRect.SatSub | src/shapes/rect.rs:93-101 | `saturating_sub` is the difference when it is non-negative and 0 otherwise |
| SatRect.EdgesAroundCenter | src/shapes/rect.rs:93-104 | the edges straddle the centre and span at most the size: exactly the size rounded down to even unless the near edge saturates at 0 |
| SatRect.FromTl | src/shapes/rect.rs:116-123 | the rectangle built from a corner has that corner as its left and top edges, the given size, and far edges that drop the odd pixel |
| SatRect.FromCenterRoundTrip | src/shapes/rect.rs:109-127 | `from_center` followed by `center` gives back the centre, and the area is the product of the sides |
| SatRect.FromF32 | src/shapes/rect.rs:22-31 | each converted field fits `u32` |
| SatRect.FromF32Rounds | src/shapes/rect.rs:22-31 | an in-range field moves by at most half a pixel, and whole `u32` fields convert to themselves |
| SatRect.OverlapWithin | src/shapes/rect.rs:129-139 | the shared area is the same from either side and fits inside each rectangle's area |
| SatRect.OverlapPct | src/shapes/rect.rs:129-148 | the percentage lies in 0 to 100, is 0 exactly when nothing is shared and 100 exactly when both areas equal the shared area |
| SatRect.OverlapPctSymmetric | src/pipeline/rect.rs:161-180 | the percentage does not depend on the order of the operands |
| SatRect.DisjointNoOverlap | src/shapes/rect.rs:129-148 | rectangles apart on either axis overlap 0% |
| Text.NatToString | eymo-img/src/lang/ast.rs:46 | an unsigned number prints as a non-empty string of digits, one digit below 10 and more from 10 up |
| Text.IntToString | eymo-img/src/lang/ast.rs:47 | a signed number prints as digits, behind a `-` when negative |
| Text.NatToStringRoundTrip | eymo-img/src/lang/ast.rs:46 | reading back the printed digits gives the number |
| Text.ParseNatToString | eymo-img/src/lang/ast.rs:46 | parsing the printed form of an unsigned number gives it back |
| Text.ParseIntToString | eymo-img/src/lang/ast.rs:47 | parsing the printed form of any signed number gives it back |
| Text.NatToStringInjective | src/lang.rs:110 | distinct numbers print differently |
| Text.NumberBeforeSeparator | src/lang.rs:121-134 | two numbers each printed before the same non-digit separator are equal when the texts are |
| Triangles.SlotIndex | src/imggpu/vertex.rs:109-115 | the index read for an output slot is always a valid input index |
| Triangles.TriangleList | src/imggpu/vertex.rs:103-124 | `n` inputs give `n - 2` triangles of three vertices |
| Triangles.ToTriangles | src/imggpu/vertex.rs:103-124 | the loop emits exactly the reference triangle list: triangle `t` reads slots `2t` to `2t + 2`, wrapping past the end onto the even vertices |
| Triangles.TriangleListFacts | src/imggpu/vertex.rs:103-124 | every output vertex is an input, the first triangle is the first three inputs, and two inputs give nothing |
| Triangles.TriangleReads | src/imggpu/vertex.rs:107-120 | triangle `t` reads inputs `2t`, `2t + 1` and `2t + 2`, each wrapped |
| Triangles.FourVertices | src/imggpu/vertex.rs:103-124 | four inputs give `[v0, v1, v2, v2, v3, v0]` |
| Triangles.ClipRange | src/imggpu/vertex.rs:70-74 | the frame's edges map to the clip square's edges with y inverted, and pixels inside the frame map inside the square |
| Triangles.Reverse | src/imggpu/vertex.rs:83 | the reversed list has the same length, element `i` taken from the other end |
| Triangles.ShapeCorners | src/imggpu/vertex.rs:76-98 | a polygon's clip-space points come in reverse order; a rectangle gives its top-right, top-left, bottom-left and bottom-right corners |
| Triangles.TrianglesForShape | src/imggpu/vertex.rs:65-101 | a shape of `n` vertices becomes `n - 2` triangles, six vertices for a rectangle |
| Triangles.ClipExamples | src/imggpu/vertex.rs:70-74 | in a 20-pixel frame, pixel 20 is clip x 1 and pixel 10 is clip 0; rows 0, 10 and 20 are clip y 1, 0 and -1 |
| Triangles.RectCorners | src/imggpu/vertex.rs:134-153 | a 10 by 10 rectangle at (10, 0) in a 20 by 20 frame has its corners at (1, 1), (0, 1), (0, 0) and (1, 0) |
| Triangles.RectTriangles | src/imggpu/vertex.rs:86-100 | any rectangle becomes the triangles (top-right, top-left, bottom-left) and (bottom-left, bottom-right, top-right) |
| Triangles.TrianglePolygonExample | src/imggpu/vertex.rs:155-175 | the three-point polygon of the unit test is one triangle of its points in reverse order |
| Triangles.SquarePolygonExample | src/imggpu/vertex.rs:177-201 | the four-point polygon of the unit test is two triangles over its reversed points |
| Vertices.ConstructorsStore | eymo-img/src/imggpu/vertex.rs:24-44 | the accessors read back the position the constructors stored; `new` is `new_with_tex` at texture coordinate 0 |
| Vertices.AddSubInverse | eymo-img/src/imggpu/vertex.rs:64-84 | adding and subtracting the same vertex, in either order, restore both position and texture coordinate |
| Vertices.MultPosFacts | eymo-img/src/imggpu/vertex.rs:86-88 | scaling scales the position alone, 1 changes nothing, and a non-zero factor is undone by its reciprocal |
| Vertices.FullCoverage | eymo-img/src/imggpu/vertex.rs:46-58 | the full-coverage list has six vertices |
| Vertices.FullCoverageCoversSquare | eymo-img/src/imggpu/vertex.rs:46-58 | every vertex is a corner of the clip square at texture coordinate 0, all four corners appear, and the two triangles share the diagonal from (1, 1) to (-1, -1) |

## Left out

- GPU plumbing is not modelled. That covers wgpu devices, textures, buffers, samplers, pipelines and render passes: `GpuGunk` and the body of `execute` in eymo-img/src/transform.rs, `execute` and `sampler` in src/transform.rs, and the files under src/imggpu and eymo-img/src/imggpu other than the vertex and padding logic. They are foreign device calls. What they compute is not visible in the source.
- Triangles.ShapeCorners: the `Shape::Polygon` arm at src/imggpu/vertex.rs:77, and the unit tests at src/imggpu/vertex.rs:155-201 that pass a `Polygon` through `impl Into<Shape>`, have no counterpart in src/shapes/shape.rs. That file declares only `Rect` and `NPoint` and no `From<Polygon>`, so vertex.rs does not compile as written. The model reads that arm as the `NPoint` arm. The same reading applies to TrianglePolygonExample and SquarePolygonExample.
- OldTransform.ShapeVertices: the match at src/transform.rs:290-295 also names `Shape::Polygon`, which src/shapes/shape.rs does not declare, so src/transform.rs does not compile as written either. OldTransform.ShapeVertices and OldTransform.TransformVertices read that arm as the `NPoint` arm, in the same way as above.
- Triangles.ClipX, Triangles.ClipY, Triangles.ShapeCorners, Triangles.TrianglesForShape, OldTransform.MakeVertex, OldTransform.ShapeVertices and OldTransform.TransformVertices require a non-zero frame width and height. With a zero frame the source does not panic: it divides by zero in f32 and produces infinite or NaN clip coordinates. The frame is the size of a texture, which wgpu never creates with a zero side, so no caller reaches that case.
- Live.BuildTransforms: the `{fr:?}` text in its error message is rendered as the derived `Debug` of `FaceRef` and `FacePart` as declared in src/lang/ast.rs, with the face index printed as `None` or `Some(n)`.
- Model inference is not modelled. That covers `run_gpu` and the ONNX sessions, the detection pipeline of src/pipeline, and build.rs. The landmark mesh, the detector rows and the detector's outcome are inputs instead.
- Video, camera, threads, the browser and OpenCV are not modelled (src/video.rs, src/main.rs, eymo-desktop/src/video.rs, eymo-wasm, cv.rs). Neither are the drawing helpers `display_face` and `display_results`. They are I/O.
- The rule grammar is not modelled. The lalrpop-generated parser is not part of this model, so a program is the already-parsed list of statements.
- src/triangulate.rs is not modelled. It is an unfinished Delaunay port in float geometry whose main loop is empty. `Vertex::to_triangles` in eymo-img/src/imggpu/vertex.rs:60-62 only delegates to it, so it is left out too.
- src/manipulation is not modelled. It is an older CPU path whose operations return "not implemented" or depend on iterators that are not part of this model.
- Trigonometry is not modelled. `Point::rotate`, `Face::rot_theta` and the rotate and scale arithmetic of `scale_rotate_flip` are float trigonometry. Where the modelled code calls them, cosine, sine and rotation arrive as function parameters.
- The projection of shapes to vertices is not modelled. `vertices_for_shapes` and `tiled_vertices` (eymo-img/src/transform.rs) are a parameter of `ImgTransform.GenVertices`, which models only the choice of groups.
- eymo-img `Rect::stretch` (eymo-img/src/shapes/rect.rs:185-202) is not modelled. It recomputes the centre as `(top + h) / 2`, which disagrees with every other operation of the type.
- eymo-img/src/shapes/point.rs and eymo-img/src/shapes/shape.rs are not part of this model. The point is its two `u32` fields, and a shape is a rectangle or a polygon.
- `Operation::Reshape` in eymo-img/src/lang.rs:81 is not modelled. Its variant is not in the syntax tree and `set_reshape` is defined nowhere, so the arm is left out.
- `f.forehead` (eymo-img/src/lang.rs:248) is not a field of the face record. It is a parameter from faces to polygons.
- The older interpreter calls methods that src/transform.rs does not define: `new(shape, id)`, `set_shape`, `write_to`, `translate_by`, `set_drift` and others. `Live` therefore records those calls as a log on each transform instead of giving them a meaning.
- Wall-clock time is a parameter. In eymo-img/src/transform.rs the source never updates `last_tick` after construction, so the elapsed time handed to `tick` is the time since the transform was built. The desktop clock readings are parameters too.
- The `mult` helper of src/pipeline/detection/anchors.rs is not modelled, because nothing calls it.
- Num.RoundU32, Num.RoundI32 and the `u32`/`i32` additions and multiplications in the model: 32-bit overflow of `+` and `*` is not modelled, because the source never reaches it on frames and faces of realistic size. The one exception is the `i32` arithmetic on relative face indices in eymo-img/src/lang.rs, where `Interp.CheckedI32`, `Interp.RelativeIndex` and `Interp.PerFaceTarget` make an overflow the panic of a debug build; a release build would wrap. Float casts do saturate as in the source. Unsigned subtractions that could underflow are preconditions.
- Num.Round: an `f32` is an exact `real`, so float rounding error before `round()` is not modelled.
- Anchors.Cell: it requires a stride of 8 or 16, the only strides the layer table holds, instead of any stride.
- ImgPolygon.Stretch: a factor that would push a point past 0 underflows a `u32` in the source. That is a panic in a debug build. The model requires that it does not happen.
- Landmarks.ExtractResults: a mesh too short for the tables makes the source panic on an index. The model requires a mesh that holds every landmark the tables name; the network's 468 landmarks always do.
- Triangles.ToTriangles: fewer than two vertices underflow `len - 2` in the source. The model requires at least two.
- GpuUtil.IntDivRoundUp: a zero divisor panics in the source. The model requires a positive one.
- Keypoints.FaceBox: the `i32` subtraction of the half size from the centre is not checked for overflow.
- Keypoints.AddRow: the overlap percentage is a parameter. The source imports a free `overlap_pct` from src/cv/shapes.rs, which defines only a method on its own top-left rectangle. Its boxes are built with `Rect::at(..).of_size(..)`, which that rectangle lacks.
- Live.Execute: a GPU failure of `Transform::execute` (src/lang.rs:68) would abort the frame. The model's renderer never fails.
- Desktop.ProcessFrame: after a panic the real program has stopped, so nothing is said about the interpreter or the cache a panicking frame leaves behind; the frame loop of eymo-desktop/src/main.rs:114-133, which logs an ordinary error and goes on to the next frame, is not itself modelled.
- ImgPolygon.MinX, ImgPolygon.MaxX, ImgPolygon.MinY, ImgPolygon.MaxY, ImgPolygon.Center, ImgPolygon.ToRect and the lemmas about them: the source folds from `points[0]` (eymo-img/src/shapes/polygon.rs:27-49), so an empty polygon panics on the index. The model requires a non-empty polygon instead of modelling that panic.
- OldShape.BoundingRect and OldShape.ToRect: the same fold from `points[0]` (src/shapes/polygon.rs:17-37) panics on an empty point list; the model requires a non-empty one.
- Keypoints.FaceBox, Keypoints.KeypointAt, Keypoints.KeypointsFrom, Keypoints.AddRow, Keypoints.ProcessResult and the lemmas about them: a detector row shorter than 20 columns makes the source panic on an index (src/cv/keypoints.rs:93-138). The model requires rows of at least 20 columns.
- The accessors `x()` and `y()` of src/imggpu/vertex.rs:37-43 read a field `postion` that the struct does not have (it is `position`), so that file does not compile as written. The model reads `position`, as evidently intended.
