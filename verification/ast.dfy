/** The rule language's syntax tree (eymo-img/src/lang/ast.rs) and the
    `Display` renderings of face references. The grammar that produces the
    tree is not part of this model: a parsed program is simply a
    `seq<Statement>`. */
module Ast {

  import opened Wrappers
  import opened Num
  import opened Text
  import ImgRect

  /** `FlipVariant`, defined in eymo-img/src/transform.rs and re-exported by
      the syntax tree. */
  datatype FlipVariant = Vertical | Horizontal | Both

  datatype FacePart = LEye | REye | LEyeRegion | REyeRegion | Face | Mouth | Nose | Forehead

  /** `Absolute(u32)` names a face by position; `Relative(i32)` by an offset
      from the face the statement is applied to. */
  datatype FaceIdx = Absolute(abs: nat) | Relative(rel: int)

  datatype FaceRef = FaceRef(part: FacePart, faceIdx: Option<FaceIdx>)

  /** A statement's target: a face part, or a rectangle literal. */
  datatype Shape = FaceShape(faceRef: FaceRef) | RectShape(rect: ImgRect.Rect)

  /** The twelve operations, with their argument types (`f32` as `real`,
      `i32` as `int`). */
  datatype Operation =
    | Tile
    | Scale(factor: real)
    | Rotate(degrees: real)
    | CopyTo(others: seq<Shape>)
    | SwapWith(other: Shape)
    | Translate(dx: int, dy: int)
    | Flip(variant: FlipVariant)
    | Drift(velocity: real, angle: real)
    | Spin(rps: real)
    | Brightness(brightness: real)
    | Saturation(saturation: real)
    | Chans(r: real, g: real, b: real)

  datatype Transform = Transform(shape: Shape, operations: seq<Operation>)

  /** `Statement` has the single variant `Transform`. */
  datatype Statement = TransformStmt(transform: Transform)

  /** The value ranges of the source's fixed-width fields. */
  predicate ValidIdx(i: FaceIdx) {
    match i
    case Absolute(n) => n <= U32_MAX
    case Relative(r) => IsI32(r)
  }

  // ---------------------------------------------------------------------
  // Display

  /** `Display for FacePart` prints the `Debug` form: the variant name. */
  function PartName(p: FacePart): (s: string)
    ensures |s| >= 4 && 'A' <= s[0] <= 'Z'
  {
    match p
    case LEye => "LEye"
    case REye => "REye"
    case LEyeRegion => "LEyeRegion"
    case REyeRegion => "REyeRegion"
    case Face => "Face"
    case Mouth => "Mouth"
    case Nose => "Nose"
    case Forehead => "Forehead"
  }

  /** `Display for FaceIdx`: `abs{n}` or `rel{n}`. */
  function IdxText(i: FaceIdx): (s: string)
    ensures |s| > 3
  {
    match i
    case Absolute(n) => "abs" + NatToString(n)
    case Relative(r) => "rel" + IntToString(r)
  }

  /** `Display for FaceRef`: the part, followed by the index when there is
      one. */
  function FaceRefText(fr: FaceRef): (s: string)
    ensures fr.faceIdx.None? ==> s == PartName(fr.part)
    ensures fr.faceIdx.Some? ==> s == PartName(fr.part) + IdxText(fr.faceIdx.value)
  {
    match fr.faceIdx
    case None => PartName(fr.part)
    case Some(i) => PartName(fr.part) + IdxText(i)
  }

  /** The eight parts, in declaration order. */
  const AllParts: seq<FacePart> := [LEye, REye, LEyeRegion, REyeRegion, Face, Mouth, Nose, Forehead]

  /** Reads back the text after a part name: nothing, `abs` and digits, or
      `rel` and a signed number. `None` when the text is neither. */
  function ParseIdxSuffix(t: string): Option<Option<FaceIdx>> {
    if |t| == 0 then Some(None)
    else if |t| > 3 && t[..3] == "abs" && AllDigits(t[3..]) then Some(Some(Absolute(DigitsValue(t[3..]))))
    else if |t| > 3 && t[..3] == "rel" && ParseInt(t[3..]).Some? then Some(Some(Relative(ParseInt(t[3..]).value)))
    else None
  }

  /** Tries the parts of `ps` in order, taking the first whose name is a
      prefix of `s` and whose remainder is an index suffix. */
  function ParseFaceRefWith(s: string, ps: seq<FacePart>): Option<FaceRef>
    decreases |ps|
  {
    if |ps| == 0 then None
    else
      var n := PartName(ps[0]);
      if n <= s && ParseIdxSuffix(s[|n|..]).Some? then Some(FaceRef(ps[0], ParseIdxSuffix(s[|n|..]).value))
      else ParseFaceRefWith(s, ps[1..])
  }

  /** The inverse of `FaceRefText`. */
  function ParseFaceRef(s: string): Option<FaceRef> {
    ParseFaceRefWith(s, AllParts)
  }

  /** The index suffix reads back. */
  lemma IdxSuffixRoundTrip(o: Option<FaceIdx>)
    ensures ParseIdxSuffix(if o.Some? then IdxText(o.value) else "") == Some(o)
  {
    if o.Some? {
      var t := IdxText(o.value);
      match o.value
      case Absolute(n) =>
        assert t[3..] == NatToString(n);
        NatToStringRoundTrip(n);
      case Relative(r) =>
        assert t[3..] == IntToString(r);
        assert t[..3] == "rel";
        ParseIntToString(r);
    }
  }

  /** Only the eye names are prefixes of other part names. */
  lemma NamePrefixes(p: FacePart, q: FacePart)
    ensures PartName(q) <= PartName(p) ==>
      p == q || (p == LEyeRegion && q == LEye) || (p == REyeRegion && q == REye)
  {
    var a, b := PartName(q), PartName(p);
    if a <= b {
      assert a[..4] == b[..4];
      match q
      case LEye => assert a[..4] == "LEye";
      case REye => assert a[..4] == "REye";
      case LEyeRegion => assert a[..5] == "LEyeR";
      case REyeRegion => assert a[..5] == "REyeR";
      case Face => assert a[..4] == "Face" && b[1] == 'a';
      case Mouth => assert a[..4] == "Mout";
      case Nose => assert a[..4] == "Nose";
      case Forehead => assert a[..4] == "Fore" && b[1] == 'o';
    }
  }

  /** Two prefixes of one string: the shorter is a prefix of the longer. */
  lemma PrefixesNest(a: string, b: string, s: string)
    ensures a <= s && b <= s && |a| <= |b| ==> a <= b
  {
    if a <= s && b <= s && |a| <= |b| {
      assert a == s[..|a|] == b[..|a|];
    }
  }

  /** A non-empty text that starts with neither marker letter is no index
      suffix. */
  lemma NoMarkerNoSuffix(t: string)
    ensures |t| > 0 && t[0] != 'a' && t[0] != 'r' ==> ParseIdxSuffix(t).None?
  {
    if |t| > 3 {
      assert t[..3][0] == t[0];
    }
  }

  /** A part other than `p` never claims the text of a reference to `p`:
      either its name is not a prefix, or what follows is not an index. */
  lemma OtherPartFails(p: FacePart, q: FacePart, suf: string)
    requires q != p
    requires suf == "" || suf[0] == 'a' || suf[0] == 'r'
    ensures var s := PartName(p) + suf;
      !(PartName(q) <= s && ParseIdxSuffix(s[|PartName(q)|..]).Some?)
  {
    var np, nq := PartName(p), PartName(q);
    var s := np + suf;
    assert s[..|np|] == np;
    NamePrefixes(p, q);
    NamePrefixes(q, p);
    PrefixesNest(nq, np, s);
    PrefixesNest(np, nq, s);
    assert PartName(LEyeRegion)[4] == 'R' && PartName(REyeRegion)[4] == 'R';
    if |suf| > 0 {
      assert s[|np|] == suf[0];
    }
    if |nq| < |np| {
      assert s[|nq|..][0] == np[|nq|];
      NoMarkerNoSuffix(s[|nq|..]);
    }
    if |nq| > |np| && |s| >= |nq| {
      assert s[..|nq|][|np|] == s[|np|];
    }
  }

  lemma {:induction false} ParseWithFinds(fr: FaceRef, ps: seq<FacePart>)
    requires fr.part in ps
    ensures ParseFaceRefWith(FaceRefText(fr), ps) == Some(fr)
    decreases |ps|
  {
    var s := FaceRefText(fr);
    var suf := if fr.faceIdx.Some? then IdxText(fr.faceIdx.value) else "";
    assert s == PartName(fr.part) + suf;
    if ps[0] == fr.part {
      assert s[|PartName(fr.part)|..] == suf;
      IdxSuffixRoundTrip(fr.faceIdx);
    } else {
      OtherPartFails(fr.part, ps[0], suf);
      ParseWithFinds(fr, ps[1..]);
    }
  }

  /** Every face reference reads back from its display text, so distinct
      references display differently. */
  lemma FaceRefRoundTrip(fr: FaceRef)
    ensures ParseFaceRef(FaceRefText(fr)) == Some(fr)
  {
    assert fr.part in AllParts by {
      match fr.part
      case LEye => assert AllParts[0] == LEye;
      case REye => assert AllParts[1] == REye;
      case LEyeRegion => assert AllParts[2] == LEyeRegion;
      case REyeRegion => assert AllParts[3] == REyeRegion;
      case Face => assert AllParts[4] == Face;
      case Mouth => assert AllParts[5] == Mouth;
      case Nose => assert AllParts[6] == Nose;
      case Forehead => assert AllParts[7] == Forehead;
    }
    ParseWithFinds(fr, AllParts);
  }

  /** Display is injective on face references. */
  lemma FaceRefTextInjective(a: FaceRef, b: FaceRef)
    requires FaceRefText(a) == FaceRefText(b)
    ensures a == b
  {
    FaceRefRoundTrip(a);
    FaceRefRoundTrip(b);
  }
}
