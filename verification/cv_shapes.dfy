/** The shapes of the OpenCV-era pipeline (src/cv/shapes.rs): a top-left
    `u32` rectangle, detections with their keypoints, and the features
    derived from them. */
module CvShapes {

  import opened ImgGeom
  import Overlap

  datatype FaceFeatureKind = LeftEar | RightEar | LeftEye | RightEye | Mouth | Nose

  /** A rectangle by its top-left corner and size. */
  datatype Rect = Rect(x: nat, y: nat, width: nat, height: nat)

  datatype FaceFeature = FaceFeature(bounds: Rect, kind: FaceFeatureKind)

  datatype Face = Face(bounds: Rect, features: seq<FaceFeature>)

  /** A keypoint: 0 nose, 1 left eye, 2 right eye, 3 left ear, 4 right ear. */
  datatype Keypoint = Keypoint(featureIdx: nat, point: Point, confidence: real)

  datatype Detection = Detection(face: Rect, keypoints: seq<Keypoint>, confidence: real)

  /** `label`: the feature kind's name. */
  function Label(f: FaceFeature): (s: string)
    ensures |s| > 0
  {
    match f.kind
    case LeftEye => "left_eye"
    case Mouth => "mouth"
    case Nose => "nose"
    case RightEye => "right_eye"
    case LeftEar => "left_ear"
    case RightEar => "right_ear"
  }

  /** Different kinds get different labels, and the bounds do not matter. */
  lemma LabelsDistinct(a: FaceFeature, b: FaceFeature)
    ensures Label(a) == Label(b) <==> a.kind == b.kind
  {
  }

  /** `Face::new`: the bounds and no features yet. */
  function NewFace(bounds: Rect): (f: Face)
    ensures f.bounds == bounds && |f.features| == 0
  {
    Face(bounds, [])
  }

  function Left(r: Rect): nat {
    r.x
  }

  function Right(r: Rect): nat {
    r.x + r.width
  }

  function Top(r: Rect): nat {
    r.y
  }

  function Bottom(r: Rect): nat {
    r.y + r.height
  }

  /** `area`: computed from the edges. */
  function Area(r: Rect): (a: nat)
    ensures a == r.width * r.height
  {
    (Right(r) - Left(r)) * (Bottom(r) - Top(r))
  }

  /** `from_center`: the rectangle of the given size centred on `c`, its
      corner found by subtracting half the size; the `u32` subtraction
      needs the centre to be at least half the size from the origin. */
  function FromCenter(c: Point, width: nat, height: nat): (r: Rect)
    requires c.x >= width / 2 && c.y >= height / 2
    ensures r.width == width && r.height == height
    ensures Left(r) + width / 2 == c.x && Top(r) + height / 2 == c.y
  {
    Rect(c.x - width / 2, c.y - height / 2, width, height)
  }

  /** The centre is inside the rectangle, at its middle (rounded down). */
  lemma FromCenterContainsCenter(c: Point, width: nat, height: nat)
    requires c.x >= width / 2 && c.y >= height / 2
    ensures var r := FromCenter(c, width, height);
      Left(r) <= c.x <= Right(r) && Top(r) <= c.y <= Bottom(r)
  {
  }

  function EdgeBox(r: Rect): Overlap.Box {
    Overlap.Box(Left(r), Right(r), Top(r), Bottom(r))
  }

  function OverlapArea(a: Rect, b: Rect): nat {
    Overlap.SharedArea(EdgeBox(a), EdgeBox(b))
  }

  /** `overlap_pct`: the shared area as a percentage of the union's area,
      0 when the union is empty. */
  function OverlapPct(a: Rect, b: Rect): (p: real)
    ensures 0.0 <= p <= 100.0
    ensures p == 0.0 <==> OverlapArea(a, b) == 0
    ensures p == 100.0 <==> OverlapArea(a, b) > 0 && OverlapArea(a, b) == Area(a) && OverlapArea(a, b) == Area(b)
  {
    Overlap.SharedAreaFacts(EdgeBox(a), EdgeBox(b));
    Overlap.Pct(OverlapArea(a, b), Area(a), Area(b))
  }

  /** The percentage does not depend on the order of the operands. */
  lemma OverlapPctSymmetric(a: Rect, b: Rect)
    ensures OverlapPct(a, b) == OverlapPct(b, a)
  {
    Overlap.SharedAreaFacts(EdgeBox(a), EdgeBox(b));
  }

  /** Rectangles apart on either axis, or two empty ones, have no overlap;
      a non-empty rectangle overlaps itself fully. */
  lemma OverlapExtremes(a: Rect, b: Rect)
    ensures Right(a) <= Left(b) || Right(b) <= Left(a) || Bottom(a) <= Top(b) || Bottom(b) <= Top(a) ==>
      OverlapPct(a, b) == 0.0
    ensures Area(a) == 0 && Area(b) == 0 ==> OverlapPct(a, b) == 0.0
    ensures Area(a) > 0 ==> OverlapPct(a, a) == 100.0
  {
    Overlap.SharedAreaFacts(EdgeBox(a), EdgeBox(b));
    if Right(a) <= Left(b) || Right(b) <= Left(a) || Bottom(a) <= Top(b) || Bottom(b) <= Top(a) {
      Overlap.SeparatedShareNothing(EdgeBox(a), EdgeBox(b));
    }
    if Area(a) > 0 {
      assert a.width > 0 && a.height > 0;
      assert OverlapArea(a, a) == a.width * a.height;
    }
  }
}
