/** `face_detection_to_features` (src/cv/face.rs): feature boxes derived
    from a detection's keypoints, sized as fixed fractions of the face. */
module CvFace {

  import opened Num
  import opened ImgGeom
  import opened CvShapes

  /** `(v as f32 * f).round() as u32`. */
  function Frac(v: nat, f: real): nat {
    RoundU32(v as real * f)
  }

  /** The mouth centre: straight below the nose by 15% of the face height. */
  function MouthCenter(nose: Point, faceHeight: nat): (p: Point)
    ensures p.x == nose.x && p.y == nose.y + RoundU32(0.15 * faceHeight as real)
  {
    Point(nose.x, nose.y + RoundU32(0.15 * faceHeight as real))
  }

  /** The mouth is in the nose's column, below it by no more than the face
      height: 15% of the height, rounded, never exceeds the height. */
  lemma MouthBelowNose(nose: Point, faceHeight: nat)
    ensures var m := MouthCenter(nose, faceHeight);
      m.x == nose.x && nose.y <= m.y <= nose.y + faceHeight
    ensures faceHeight == 0 ==> MouthCenter(nose, faceHeight) == nose
  {
  }

  /** The box sizes per keypoint index, as (width, height) fractions of the
      face: nose 14% by 16%, eyes 16% by 12%, ears 4% by 10%; the mouth is
      22% by 10%. */
  function Fractions(idx: nat): (real, real)
    requires idx <= 4
  {
    if idx == 0 then (0.14, 0.16)
    else if idx <= 2 then (0.16, 0.12)
    else (0.04, 0.10)
  }

  const MOUTH_FRACTIONS: (real, real) := (0.22, 0.10)

  /** Whether the centre sits far enough from the origin for a box of the
      given fractions of the face: `from_center` subtracts half the size in
      `u32`. */
  predicate Centred(c: Point, fr: (real, real), fw: nat, fh: nat) {
    c.x >= Frac(fw, fr.0) / 2 && c.y >= Frac(fh, fr.1) / 2
  }

  /** Every keypoint the source turns into boxes has room for them. */
  predicate BoxesFit(d: Detection) {
    var fw, fh := d.face.width, d.face.height;
    forall k :: 0 <= k < |d.keypoints| ==>
      var kp := d.keypoints[k];
      kp.featureIdx <= 4 ==>
        Centred(kp.point, Fractions(kp.featureIdx), fw, fh) &&
        (kp.featureIdx == 0 ==> Centred(MouthCenter(kp.point, fh), MOUTH_FRACTIONS, fw, fh))
  }

  function FeatureBox(c: Point, fr: (real, real), fw: nat, fh: nat, kind: FaceFeatureKind): (f: FaceFeature)
    requires Centred(c, fr, fw, fh)
    ensures f.kind == kind && f.bounds.width == Frac(fw, fr.0) && f.bounds.height == Frac(fh, fr.1)
    ensures Left(f.bounds) + f.bounds.width / 2 == c.x && Top(f.bounds) + f.bounds.height / 2 == c.y
  {
    FaceFeature(FromCenter(c, Frac(fw, fr.0), Frac(fh, fr.1)), kind)
  }

  /** The features one keypoint adds: the nose adds the nose and then the
      mouth; the eyes and ears add one box each; other indices add
      nothing. */
  function FeaturesFor(kp: Keypoint, fw: nat, fh: nat): (fs: seq<FaceFeature>)
    requires kp.featureIdx <= 4 ==> Centred(kp.point, Fractions(kp.featureIdx), fw, fh)
    requires kp.featureIdx == 0 ==> Centred(MouthCenter(kp.point, fh), MOUTH_FRACTIONS, fw, fh)
    ensures |fs| == (if kp.featureIdx == 0 then 2 else if kp.featureIdx <= 4 then 1 else 0)
    ensures kp.featureIdx == 0 ==> fs[0].kind == Nose && fs[1].kind == Mouth
    ensures kp.featureIdx == 1 ==> fs[0].kind == LeftEye
    ensures kp.featureIdx == 2 ==> fs[0].kind == RightEye
    ensures kp.featureIdx == 3 ==> fs[0].kind == LeftEar
    ensures kp.featureIdx == 4 ==> fs[0].kind == RightEar
  {
    match kp.featureIdx
    case 0 =>
      [FeatureBox(kp.point, Fractions(0), fw, fh, Nose),
       FeatureBox(MouthCenter(kp.point, fh), MOUTH_FRACTIONS, fw, fh, Mouth)]
    case 1 => [FeatureBox(kp.point, Fractions(1), fw, fh, LeftEye)]
    case 2 => [FeatureBox(kp.point, Fractions(2), fw, fh, RightEye)]
    case 3 => [FeatureBox(kp.point, Fractions(3), fw, fh, LeftEar)]
    case 4 => [FeatureBox(kp.point, Fractions(4), fw, fh, RightEar)]
    case _ => []
  }

  /** The features of the keypoints from `k` on, in keypoint order. */
  function FeaturesFrom(d: Detection, k: nat): seq<FaceFeature>
    requires BoxesFit(d) && k <= |d.keypoints|
    decreases |d.keypoints| - k
  {
    if k == |d.keypoints| then []
    else FeaturesFor(d.keypoints[k], d.face.width, d.face.height) + FeaturesFrom(d, k + 1)
  }

  /** `face_detection_to_features`: the face's bounds, and the features of
      its keypoints in order. */
  function FaceDetectionToFeatures(d: Detection): (f: Face)
    requires BoxesFit(d)
    ensures f.bounds == d.face
    ensures f.features == FeaturesFrom(d, 0)
    ensures |f.features| == Weight(d.keypoints, 0)
  {
    FeatureCount(d, 0);
    var face := NewFace(d.face);
    face.(features := face.features + FeaturesFrom(d, 0))
  }

  /** The number of features a keypoint list gives: two for a nose, one for
      each eye or ear, none otherwise. */
  function Weight(kps: seq<Keypoint>, k: nat): nat
    requires k <= |kps|
    decreases |kps| - k
  {
    if k == |kps| then 0
    else (if kps[k].featureIdx == 0 then 2 else if kps[k].featureIdx <= 4 then 1 else 0) + Weight(kps, k + 1)
  }

  /** The count is 2 per nose keypoint plus 1 per eye or ear keypoint. */
  lemma {:induction false} FeatureCount(d: Detection, k: nat)
    requires BoxesFit(d) && k <= |d.keypoints|
    ensures |FeaturesFrom(d, k)| == Weight(d.keypoints, k)
    decreases |d.keypoints| - k
  {
    if k < |d.keypoints| {
      FeatureCount(d, k + 1);
    }
  }

  /** Each keypoint's features sit together, after those of the keypoints
      before it: the features of keypoints `k..` start with keypoint `k`'s. */
  lemma FeaturesInKeypointOrder(d: Detection, k: nat)
    requires BoxesFit(d) && k < |d.keypoints|
    ensures var own := FeaturesFor(d.keypoints[k], d.face.width, d.face.height);
      FeaturesFrom(d, k)[..|own|] == own
  {
  }

  /** A detection whose keypoints are one of each kind, in index order,
      gives nose, mouth, left eye, right eye, left ear, right ear. */
  lemma AllFiveKeypoints(d: Detection)
    requires BoxesFit(d) && |d.keypoints| == 5
    requires forall k :: 0 <= k < 5 ==> d.keypoints[k].featureIdx == k
    ensures var fs := FaceDetectionToFeatures(d).features;
      |fs| == 6 &&
      fs[0].kind == Nose && fs[1].kind == Mouth && fs[2].kind == LeftEye &&
      fs[3].kind == RightEye && fs[4].kind == LeftEar && fs[5].kind == RightEar
  {
    var fw, fh := d.face.width, d.face.height;
    var f := [FeaturesFor(d.keypoints[0], fw, fh), FeaturesFor(d.keypoints[1], fw, fh),
              FeaturesFor(d.keypoints[2], fw, fh), FeaturesFor(d.keypoints[3], fw, fh),
              FeaturesFor(d.keypoints[4], fw, fh)];
    assert FeaturesFrom(d, 4) == f[4] + FeaturesFrom(d, 5) == f[4];
    assert FeaturesFrom(d, 3) == f[3] + FeaturesFrom(d, 4);
    assert FeaturesFrom(d, 2) == f[2] + FeaturesFrom(d, 3);
    assert FeaturesFrom(d, 1) == f[1] + FeaturesFrom(d, 2);
    assert FeaturesFrom(d, 0) == f[0] + FeaturesFrom(d, 1);
  }
}
