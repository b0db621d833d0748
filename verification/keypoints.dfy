/** `process_result` (src/cv/keypoints.rs): turning the face model's output
    rows into detections, dropping unconfident rows and duplicates.

    A row holds the box centre and size (columns 0 to 3), the confidence
    (column 4) and five keypoints of three columns each (x, y, confidence).
    The file builds its boxes with a signed corner and an unsigned size and
    calls an `overlap_pct` on them that src/cv/shapes.rs does not provide,
    so the box here is its own type and the overlap percentage is a
    parameter. */
module Keypoints {

  import opened Num
  import opened Wrappers

  const MIN_CONFIDENCE: real := 0.85

  /** Percentage above which two boxes are the same face. */
  const DUPLICATE_OVERLAP: real := 20.0

  const KEYPOINT_COUNT: nat := 5

  /** Columns a row must have: the last keypoint's confidence is column 19. */
  const ROW_WIDTH: nat := 20

  /** A box by its signed top-left corner and its size. */
  datatype Box = Box(left: int, top: int, width: nat, height: nat)

  datatype Keypoint = Keypoint(featureIdx: nat, x: int, y: int, confidence: real)

  datatype Detection = Detection(face: Box, keypoints: seq<Keypoint>, confidence: real)

  type Row = seq<real>

  /** `i32 as u32`: a negative value wraps to 2^32 + v. */
  function U32OfI32(v: int): (n: nat)
    requires IsI32(v)
    ensures v >= 0 ==> n == v
    ensures v < 0 ==> n == v + U32_MOD
  {
    if v >= 0 then v else v + U32_MOD
  }

  /** `(v * scale).round() as i32`. */
  function Scaled(v: real, scale: real): (n: int)
    ensures IsI32(n)
  {
    RoundI32(v * scale)
  }

  /** The face box of a row: the rounded scaled centre minus half the
      rounded scaled size, halved toward zero. */
  function FaceBox(row: Row, xScale: real, yScale: real): (b: Box)
    requires |row| >= ROW_WIDTH
    ensures b.width == U32OfI32(Scaled(row[2], xScale)) && b.height == U32OfI32(Scaled(row[3], yScale))
    ensures b.left == Scaled(row[0], xScale) - TDiv(Scaled(row[2], xScale), 2)
    ensures b.top == Scaled(row[1], yScale) - TDiv(Scaled(row[3], yScale), 2)
  {
    var xc, yc := Scaled(row[0], xScale), Scaled(row[1], yScale);
    var w, h := Scaled(row[2], xScale), Scaled(row[3], yScale);
    Box(xc - TDiv(w, 2), yc - TDiv(h, 2), U32OfI32(w), U32OfI32(h))
  }

  /** The box sits around the row's scaled centre. For a non-negative
      scaled size the box has that size and the centre lies half of it,
      rounded down, past the corner, so the two halves differ by at most
      the odd pixel; a negative scaled size wraps to a width or height of
      at least 2^31 and puts the corner past the centre. */
  lemma FaceBoxAroundCenter(row: Row, xScale: real, yScale: real)
    requires |row| >= ROW_WIDTH
    ensures var b, xc, w := FaceBox(row, xScale, yScale), Scaled(row[0], xScale), Scaled(row[2], xScale);
      (w >= 0 ==> b.width == w && b.left <= xc && 0 <= b.width - 2 * (xc - b.left) <= 1) &&
      (w < 0 ==> b.width >= 0x8000_0000 && b.left >= xc)
    ensures var b, yc, h := FaceBox(row, xScale, yScale), Scaled(row[1], yScale), Scaled(row[3], yScale);
      (h >= 0 ==> b.height == h && b.top <= yc && 0 <= b.height - 2 * (yc - b.top) <= 1) &&
      (h < 0 ==> b.height >= 0x8000_0000 && b.top >= yc)
  {
  }

  /** The keypoints of a row from keypoint `k` on: each one whose
      confidence reaches the minimum, with its index and scaled position. */
  function KeypointsFrom(row: Row, xScale: real, yScale: real, k: nat): (kps: seq<Keypoint>)
    requires |row| >= ROW_WIDTH && k <= KEYPOINT_COUNT
    ensures |kps| <= KEYPOINT_COUNT - k
    ensures Ascending(kps, k)
    decreases KEYPOINT_COUNT - k
  {
    if k == KEYPOINT_COUNT then []
    else
      var here, rest := KeypointAt(row, xScale, yScale, k), KeypointsFrom(row, xScale, yScale, k + 1);
      if |here| == 0 then
        AscendingFrom(rest, k + 1, k);
        assert here + rest == rest;
        rest
      else
        assert (here + rest)[1..] == rest;
        here + rest
  }

  /** Keypoint `k` of a row, read from columns `5 + 3k` to `7 + 3k`, or
      nothing when its confidence is below the minimum. */
  function KeypointAt(row: Row, xScale: real, yScale: real, k: nat): (kps: seq<Keypoint>)
    requires |row| >= ROW_WIDTH && k < KEYPOINT_COUNT
    ensures |kps| <= 1
    ensures |kps| == 1 <==> row[5 + 3 * k + 2] >= MIN_CONFIDENCE
    ensures |kps| == 1 ==> kps[0].featureIdx == k
  {
    var c := 5 + 3 * k;
    if row[c + 2] < MIN_CONFIDENCE then []
    else [Keypoint(k, Scaled(row[c], xScale), Scaled(row[c + 1], yScale), row[c + 2])]
  }

  /** Keypoint indices strictly increasing, from at least `lo` and below
      the keypoint count. */
  predicate Ascending(kps: seq<Keypoint>, lo: nat) {
    |kps| == 0 || (lo <= kps[0].featureIdx < KEYPOINT_COUNT && Ascending(kps[1..], kps[0].featureIdx + 1))
  }

  lemma AscendingFrom(kps: seq<Keypoint>, lo: nat, lo': nat)
    requires Ascending(kps, lo) && lo' <= lo
    ensures Ascending(kps, lo')
  {
  }

  /** Ascending indices are pairwise ordered and all at least `lo`. */
  lemma {:induction false} AscendingOrdered(kps: seq<Keypoint>, lo: nat)
    requires Ascending(kps, lo)
    ensures forall i :: 0 <= i < |kps| ==> lo <= kps[i].featureIdx < KEYPOINT_COUNT
    ensures forall i, j :: 0 <= i < j < |kps| ==> kps[i].featureIdx < kps[j].featureIdx
  {
    if |kps| > 0 {
      var tail := kps[1..];
      AscendingOrdered(tail, kps[0].featureIdx + 1);
      forall i | 0 <= i < |kps|
        ensures lo <= kps[i].featureIdx < KEYPOINT_COUNT
      {
        if i > 0 {
          assert kps[i] == tail[i - 1];
        }
      }
      forall i, j | 0 <= i < j < |kps|
        ensures kps[i].featureIdx < kps[j].featureIdx
      {
        assert kps[j] == tail[j - 1];
        if i > 0 {
          assert kps[i] == tail[i - 1];
        }
      }
    }
  }

  /** Whether a keypoint list holds the keypoint with index `j`. */
  predicate HasKeypoint(kps: seq<Keypoint>, j: nat) {
    |kps| > 0 && (kps[0].featureIdx == j || HasKeypoint(kps[1..], j))
  }

  /** Holding a keypoint is being at some position of the list. */
  lemma {:induction false} HasKeypointAt(kps: seq<Keypoint>, j: nat)
    ensures HasKeypoint(kps, j) <==> exists i :: 0 <= i < |kps| && kps[i].featureIdx == j
  {
    if |kps| > 0 {
      var tail := kps[1..];
      HasKeypointAt(tail, j);
      if exists i :: 0 <= i < |kps| && kps[i].featureIdx == j {
        var i :| 0 <= i < |kps| && kps[i].featureIdx == j;
        if i > 0 {
          assert tail[i - 1].featureIdx == j;
        }
      }
      if HasKeypoint(tail, j) {
        var i :| 0 <= i < |tail| && tail[i].featureIdx == j;
        assert kps[i + 1].featureIdx == j;
      }
    }
  }

  lemma {:induction false} HasKeypointAppend(a: seq<Keypoint>, b: seq<Keypoint>, j: nat)
    ensures HasKeypoint(a + b, j) <==> HasKeypoint(a, j) || HasKeypoint(b, j)
  {
    if |a| == 0 {
      assert a + b == b;
    } else {
      assert (a + b)[0] == a[0];
      assert (a + b)[1..] == a[1..] + b;
      HasKeypointAppend(a[1..], b, j);
    }
  }

  lemma {:induction false} LacksKeypoint(kps: seq<Keypoint>, lo: nat, j: nat)
    requires Ascending(kps, lo) && j < lo
    ensures !HasKeypoint(kps, j)
  {
    if |kps| > 0 {
      LacksKeypoint(kps[1..], kps[0].featureIdx + 1, j);
    }
  }

  /** The keypoints from `k` on are keypoint `k`'s followed by the rest. */
  lemma KeypointsFromStep(row: Row, xScale: real, yScale: real, k: nat, j: nat)
    requires |row| >= ROW_WIDTH && k < KEYPOINT_COUNT
    ensures HasKeypoint(KeypointsFrom(row, xScale, yScale, k), j) <==>
      HasKeypoint(KeypointAt(row, xScale, yScale, k), j) || HasKeypoint(KeypointsFrom(row, xScale, yScale, k + 1), j)
  {
    var here := KeypointAt(row, xScale, yScale, k);
    var rest := KeypointsFrom(row, xScale, yScale, k + 1);
    assert KeypointsFrom(row, xScale, yScale, k) == here + rest;
    HasKeypointAppend(here, rest, j);
  }

  /** Keypoint `k`'s slot holds index `j` exactly when `j == k` and it is
      confident. */
  lemma KeypointAtHas(row: Row, xScale: real, yScale: real, k: nat, j: nat)
    requires |row| >= ROW_WIDTH && k < KEYPOINT_COUNT
    ensures HasKeypoint(KeypointAt(row, xScale, yScale, k), j) <==> j == k && row[5 + 3 * k + 2] >= MIN_CONFIDENCE
  {
    var here := KeypointAt(row, xScale, yScale, k);
    if |here| == 1 {
      assert here[0].featureIdx == k;
    }
  }

  /** The keypoints from `k` on hold index `j` when it is keypoint `k`
      and confident, or when the keypoints after `k` hold it. */
  lemma KeypointsFromHas(row: Row, xScale: real, yScale: real, k: nat, j: nat)
    requires |row| >= ROW_WIDTH && k < KEYPOINT_COUNT
    ensures HasKeypoint(KeypointsFrom(row, xScale, yScale, k), j) <==>
      (j == k && row[5 + 3 * k + 2] >= MIN_CONFIDENCE) || HasKeypoint(KeypointsFrom(row, xScale, yScale, k + 1), j)
  {
    KeypointsFromStep(row, xScale, yScale, k, j);
    KeypointAtHas(row, xScale, yScale, k, j);
  }

  /** A keypoint is kept exactly when its confidence reaches the minimum. */
  lemma {:induction false} KeypointKept(row: Row, xScale: real, yScale: real, k: nat, j: nat)
    requires |row| >= ROW_WIDTH && k <= j < KEYPOINT_COUNT
    ensures HasKeypoint(KeypointsFrom(row, xScale, yScale, k), j) <==> row[5 + 3 * j + 2] >= MIN_CONFIDENCE
    decreases KEYPOINT_COUNT - k
  {
    KeypointsFromHas(row, xScale, yScale, k, j);
    if j > k {
      KeypointKept(row, xScale, yScale, k + 1, j);
    } else {
      LacksKeypoint(KeypointsFrom(row, xScale, yScale, k + 1), k + 1, j);
    }
  }

  /** The keypoints come in ascending index order, each index at most once,
      all below the keypoint count. */
  lemma KeypointsAscending(row: Row, xScale: real, yScale: real)
    requires |row| >= ROW_WIDTH
    ensures var kps := KeypointsFrom(row, xScale, yScale, 0);
      (forall i :: 0 <= i < |kps| ==> kps[i].featureIdx < KEYPOINT_COUNT) &&
      (forall i, j :: 0 <= i < j < |kps| ==> kps[i].featureIdx < kps[j].featureIdx)
  {
    AscendingOrdered(KeypointsFrom(row, xScale, yScale, 0), 0);
  }

  /** `Vec::swap_remove(i)`: the last element takes position `i`. */
  function SwapRemove(ds: seq<Detection>, i: nat): (r: seq<Detection>)
    requires i < |ds|
    ensures |r| == |ds| - 1
    ensures multiset(r) == multiset(ds) - multiset{ds[i]}
  {
    if i == |ds| - 1 then
      assert ds == ds[..i] + [ds[i]];
      ds[..i]
    else
      assert ds == ds[..i] + [ds[i]] + ds[i + 1..|ds| - 1] + [ds[|ds| - 1]];
      ds[..i] + [ds[|ds| - 1]] + ds[i + 1..|ds| - 1]
  }

  /** The first detection, from position `i` on, whose box overlaps `b` by
      more than the duplicate threshold. */
  function FirstDuplicate(ds: seq<Detection>, b: Box, overlap: (Box, Box) -> real, i: nat): (r: Option<nat>)
    requires i <= |ds|
    ensures r.Some? ==> (i <= r.value < |ds| && overlap(b, ds[r.value].face) > DUPLICATE_OVERLAP &&
      forall j :: i <= j < r.value ==> overlap(b, ds[j].face) <= DUPLICATE_OVERLAP)
    ensures r.None? ==> forall j :: i <= j < |ds| ==> overlap(b, ds[j].face) <= DUPLICATE_OVERLAP
    decreases |ds| - i
  {
    if i == |ds| then None
    else if overlap(b, ds[i].face) > DUPLICATE_OVERLAP then Some(i)
    else FirstDuplicate(ds, b, overlap, i + 1)
  }

  /** The detection a confident row stands for: its box, its confident
      keypoints and its confidence. */
  function RowDetection(row: Row, xScale: real, yScale: real): Detection
    requires |row| >= ROW_WIDTH
  {
    Detection(FaceBox(row, xScale, yScale), KeypointsFrom(row, xScale, yScale, 0), row[4])
  }

  /** One row's effect on the detections so far: an unconfident row
      changes nothing; otherwise only the first overlapping detection is
      examined, and the row is dropped when that one is strictly more
      confident, or replaces it (by `swap_remove`, then appended) when it is
      not. */
  function AddRow(ds: seq<Detection>, row: Row, xScale: real, yScale: real, overlap: (Box, Box) -> real)
    : (r: seq<Detection>)
    requires |row| >= ROW_WIDTH
    ensures row[4] < MIN_CONFIDENCE ==> r == ds
    ensures |r| <= |ds| + 1
    ensures |r| == |ds| + 1 <==> (row[4] >= MIN_CONFIDENCE &&
      FirstDuplicate(ds, FaceBox(row, xScale, yScale), overlap, 0).None?)
    ensures r == ds || (|r| > 0 && r[|r| - 1] == RowDetection(row, xScale, yScale))
    ensures multiset(r) <= multiset(ds) + multiset{RowDetection(row, xScale, yScale)}
  {
    var c := row[4];
    if c < MIN_CONFIDENCE then ds
    else
      var b := FaceBox(row, xScale, yScale);
      var det := RowDetection(row, xScale, yScale);
      match FirstDuplicate(ds, b, overlap, 0)
      case Some(i) => if ds[i].confidence > c then ds else SwapRemove(ds, i) + [det]
      case None => ds + [det]
  }

  /** The detections after the first `n` rows. */
  function Detections(rows: seq<Row>, xScale: real, yScale: real, overlap: (Box, Box) -> real): seq<Detection>
    requires forall i :: 0 <= i < |rows| ==> |rows[i]| >= ROW_WIDTH
  {
    if |rows| == 0 then []
    else AddRow(Detections(rows[..|rows| - 1], xScale, yScale, overlap), rows[|rows| - 1], xScale, yScale, overlap)
  }

  /** `process_result`: the rows in order. */
  method ProcessResult(rows: seq<Row>, xScale: real, yScale: real, overlap: (Box, Box) -> real)
    returns (ds: seq<Detection>)
    requires forall i :: 0 <= i < |rows| ==> |rows[i]| >= ROW_WIDTH
    ensures ds == Detections(rows, xScale, yScale, overlap)
  {
    ds := [];
    var n := 0;
    while n < |rows|
      invariant 0 <= n <= |rows|
      invariant ds == Detections(rows[..n], xScale, yScale, overlap)
    {
      assert rows[..n + 1][..n] == rows[..n];
      ds := AddRow(ds, rows[n], xScale, yScale, overlap);
      n := n + 1;
    }
    assert rows[..n] == rows;
  }

  /** The number of rows confident enough to be considered. */
  function ConfidentRows(rows: seq<Row>): nat
    requires forall i :: 0 <= i < |rows| ==> |rows[i]| >= ROW_WIDTH
  {
    if |rows| == 0 then 0
    else ConfidentRows(rows[..|rows| - 1]) + (if rows[|rows| - 1][4] >= MIN_CONFIDENCE then 1 else 0)
  }

  /** Each row adds at most one detection, and only a confident one. */
  lemma {:induction false} AtMostOnePerConfidentRow(rows: seq<Row>, xScale: real, yScale: real,
                                                    overlap: (Box, Box) -> real)
    requires forall i :: 0 <= i < |rows| ==> |rows[i]| >= ROW_WIDTH
    ensures |Detections(rows, xScale, yScale, overlap)| <= ConfidentRows(rows)
  {
    if |rows| > 0 {
      AtMostOnePerConfidentRow(rows[..|rows| - 1], xScale, yScale, overlap);
    }
  }

  /** Every detection kept is a confident row's: its confidence reaches the
      minimum, and its keypoints are that row's confident keypoints. */
  lemma {:induction false} DetectionsAreConfident(rows: seq<Row>, xScale: real, yScale: real,
                                                  overlap: (Box, Box) -> real)
    requires forall i :: 0 <= i < |rows| ==> |rows[i]| >= ROW_WIDTH
    ensures forall d :: d in Detections(rows, xScale, yScale, overlap) ==>
      d.confidence >= MIN_CONFIDENCE &&
      exists i :: 0 <= i < |rows| && d == RowDetection(rows[i], xScale, yScale)
  {
    if |rows| > 0 {
      var front := rows[..|rows| - 1];
      var last := rows[|rows| - 1];
      DetectionsAreConfident(front, xScale, yScale, overlap);
      var before := Detections(front, xScale, yScale, overlap);
      var after := Detections(rows, xScale, yScale, overlap);
      forall d | d in after
        ensures d.confidence >= MIN_CONFIDENCE &&
          exists i :: 0 <= i < |rows| && d == RowDetection(rows[i], xScale, yScale)
      {
        if d in before {
          var i :| 0 <= i < |front| && d == RowDetection(front[i], xScale, yScale);
          assert rows[i] == front[i];
        } else {
          AddRowNew(before, last, xScale, yScale, overlap, d);
          assert rows[|rows| - 1] == last;
        }
      }
    }
  }

  /** What a row adds beyond the earlier detections is that row's own
      confident detection. */
  lemma AddRowNew(ds: seq<Detection>, row: Row, xScale: real, yScale: real, overlap: (Box, Box) -> real,
                  d: Detection)
    requires |row| >= ROW_WIDTH
    requires d in AddRow(ds, row, xScale, yScale, overlap) && d !in ds
    ensures row[4] >= MIN_CONFIDENCE
    ensures d == RowDetection(row, xScale, yScale)
  {
    var r := AddRow(ds, row, xScale, yScale, overlap);
    assert d in multiset(r);
    assert d !in multiset(ds);
  }

  /** The duplicate rule: when the first overlapping detection is strictly
      more confident the row is dropped; otherwise that detection is
      replaced and the row's detection comes last. */
  lemma DuplicateRule(ds: seq<Detection>, row: Row, xScale: real, yScale: real, overlap: (Box, Box) -> real)
    requires |row| >= ROW_WIDTH && row[4] >= MIN_CONFIDENCE
    requires FirstDuplicate(ds, FaceBox(row, xScale, yScale), overlap, 0).Some?
    ensures var i := FirstDuplicate(ds, FaceBox(row, xScale, yScale), overlap, 0).value;
      var r := AddRow(ds, row, xScale, yScale, overlap);
      (ds[i].confidence > row[4] ==> r == ds) &&
      (ds[i].confidence <= row[4] ==>
        |r| == |ds| && multiset(r[..|r| - 1]) == multiset(ds) - multiset{ds[i]} &&
        r[|r| - 1] == RowDetection(row, xScale, yScale))
  {
    var i := FirstDuplicate(ds, FaceBox(row, xScale, yScale), overlap, 0).value;
    if ds[i].confidence <= row[4] {
      var r := AddRow(ds, row, xScale, yScale, overlap);
      assert r[..|r| - 1] == SwapRemove(ds, i);
    }
  }
}
