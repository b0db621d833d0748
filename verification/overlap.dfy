/** The intersection-over-union percentage that every rectangle type of the
    repository computes the same way in its `overlap_pct`: the overlap of two
    edge boxes, divided by the area of their union, times 100. The rectangle
    types differ only in how they derive their edges and area. */
module Overlap {

  /** An axis-aligned box given by its four edges. */
  datatype Box = Box(left: nat, right: nat, top: nat, bottom: nat)

  predicate Proper(b: Box) {
    b.left <= b.right && b.top <= b.bottom
  }

  function Span(b: Box): nat
    requires Proper(b)
  {
    (b.right - b.left) * (b.bottom - b.top)
  }

  function Min(a: nat, b: nat): nat {
    if a <= b then a else b
  }

  function Max(a: nat, b: nat): nat {
    if a >= b then a else b
  }

  /** The overlap: the product of the shared extents when both are positive,
      else 0. */
  function SharedArea(a: Box, b: Box): nat {
    var xMin := Max(a.left, b.left);
    var xMax := Min(a.right, b.right);
    var yMin := Max(a.top, b.top);
    var yMax := Min(a.bottom, b.bottom);
    if xMin < xMax && yMin < yMax then
      var dx: nat := xMax - xMin;
      var dy: nat := yMax - yMin;
      dx * dy
    else 0
  }

  lemma MulLe(a: nat, b: nat, c: nat, d: nat)
    requires a <= c && b <= d
    ensures a * b <= c * d
  {
    assert a * b <= c * b;
    assert c * b <= c * d;
  }

  /** The overlap is the same from either side, and fits in each box. */
  lemma SharedAreaFacts(a: Box, b: Box)
    requires Proper(a) && Proper(b)
    ensures SharedArea(a, b) == SharedArea(b, a)
    ensures SharedArea(a, b) <= Span(a) && SharedArea(a, b) <= Span(b)
  {
    var xMin := Max(a.left, b.left);
    var xMax := Min(a.right, b.right);
    var yMin := Max(a.top, b.top);
    var yMax := Min(a.bottom, b.bottom);
    if xMin < xMax && yMin < yMax {
      MulLe(xMax - xMin, yMax - yMin, a.right - a.left, a.bottom - a.top);
      MulLe(xMax - xMin, yMax - yMin, b.right - b.left, b.bottom - b.top);
    }
  }

  /** Boxes that are apart on either axis share nothing. */
  lemma SeparatedShareNothing(a: Box, b: Box)
    requires a.right <= b.left || b.right <= a.left || a.bottom <= b.top || b.bottom <= a.top
    ensures SharedArea(a, b) == 0
  {
  }

  /** The percentage `shared / (areaA + areaB - shared) * 100`, or 0 when
      that union is empty. It is 0 exactly when nothing is shared and 100
      exactly when the shared area is all of both areas. */
  function Pct(shared: nat, areaA: nat, areaB: nat): (p: real)
    requires shared <= areaA && shared <= areaB
    ensures 0.0 <= p <= 100.0
    ensures p == 0.0 <==> shared == 0
    ensures p == 100.0 <==> shared > 0 && shared == areaA && shared == areaB
  {
    var delta := areaA + areaB - shared;
    if delta > 0 then
      PctBounds(shared, delta);
      shared as real / delta as real * 100.0
    else 0.0
  }

  lemma PctBounds(o: nat, delta: nat)
    requires 0 < delta && o <= delta
    ensures 0.0 <= o as real / delta as real * 100.0 <= 100.0
    ensures o as real / delta as real * 100.0 == 0.0 <==> o == 0
    ensures o as real / delta as real * 100.0 == 100.0 <==> o == delta
  {
    QuotientRange(o as real, delta as real);
  }

  /** For `0 <= o <= d` the quotient `o / d` lies in [0, 1], is 0 only for
      `o == 0` and 1 only for `o == d`. */
  lemma QuotientRange(o: real, d: real)
    requires 0.0 < d && 0.0 <= o <= d
    ensures 0.0 <= o / d <= 1.0
    ensures o / d == 0.0 <==> o == 0.0
    ensures o / d == 1.0 <==> o == d
  {
    QuotientNonNegative(o, d);
    QuotientAtMostOne(o, d);
    QuotientZero(o, d);
    QuotientOne(o, d);
  }

  lemma QuotientNonNegative(o: real, d: real)
    requires 0.0 < d && 0.0 <= o
    ensures 0.0 <= o / d
  {
  }

  lemma QuotientAtMostOne(o: real, d: real)
    requires 0.0 < d && o <= d
    ensures o / d <= 1.0
  {
  }

  lemma QuotientZero(o: real, d: real)
    requires 0.0 < d
    ensures o / d == 0.0 <==> o == 0.0
  {
  }

  lemma QuotientOne(o: real, d: real)
    requires 0.0 < d
    ensures o / d == 1.0 <==> o == d
  {
  }
}
