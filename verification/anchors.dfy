/** The BlazeFace anchor grid of src/pipeline/detection/anchors.rs: which
    grid cell of a 128 by 128 input a detector output row describes. */
module Anchors {

  import opened Wrappers
  import SatRect
  import Text

  const STRIDES: seq<nat> := [8, 16, 16, 16]
  const SCALE_COUNT: nat := 2
  const WIDTH: nat := 128
  const HEIGHT: nat := 128

  /** The number of anchors the detector emits. */
  const ANCHOR_COUNT: nat := 896

  /** The layer table `gen_anchor` builds: each stride appears once per
      scale, and each layer starts where the previous one's cells end. */
  const LAYERS: seq<(nat, nat)> :=
    [(0, 8), (256, 8), (512, 16), (576, 16), (640, 16), (704, 16), (768, 16), (832, 16)]

  /** Layer `l` is the last one that starts at or before `offset`. */
  predicate SelectsLayer(offset: nat, l: nat) {
    l < |LAYERS| && LAYERS[l].0 <= offset && (l + 1 == |LAYERS| || offset < LAYERS[l + 1].0)
  }

  /** The cell `offset - start` of a layer with the given stride, counted
      column-major over a grid of `128 / stride` rows. */
  function Cell(offset: nat, start: nat, stride: nat): (r: SatRect.Rect)
    requires start <= offset && (stride == 8 || stride == 16)
  {
    var perRow := WIDTH / stride;
    var idx := offset - start;
    SatRect.Rect(idx / perRow * stride, idx % perRow * stride, 1, 1)
  }

  /** `gen_anchor`: build the layer table, find the last layer starting at
      or before `offset`, and place the anchor at its cell. Offsets past
      the last anchor are an error. */
  method GenAnchor(offset: nat) returns (r: Result<SatRect.Rect>)
    ensures r.Err? <==> offset >= ANCHOR_COUNT
    ensures r.Err? ==> r.msg == "Cannot handle offset " + Text.NatToString(offset) + " (must be <896)"
    ensures r.Ok? ==> exists l: nat :: SelectsLayer(offset, l) && r.value == Cell(offset, LAYERS[l].0, LAYERS[l].1)
  {
    if offset >= ANCHOR_COUNT {
      return Err("Cannot handle offset " + Text.NatToString(offset) + " (must be <896)");
    }
    var layers := BuildLayers();
    var stride, layerIdx := FindLayer(layers, offset);
    var perRow := WIDTH / stride;
    r := Ok(SatRect.Rect(layerIdx / perRow * stride, layerIdx % perRow * stride, 1, 1));
  }

  /** The table loop of `gen_anchor`: for each stride, one layer per scale,
      each starting at the running total of the cells before it (a layer of
      stride `s` holds `128 * 128 / s / s` cells). */
  method BuildLayers() returns (layers: seq<(nat, nat)>)
    ensures layers == LAYERS
  {
    layers := [];
    var agg := 0;
    var s := 0;
    while s < |STRIDES|
      invariant 0 <= s <= |STRIDES|
      invariant layers == LAYERS[..SCALE_COUNT * s]
      invariant agg == if s == |STRIDES| then ANCHOR_COUNT else LAYERS[SCALE_COUNT * s].0
    {
      var stride := STRIDES[s];
      var j := 0;
      while j < SCALE_COUNT
        invariant 0 <= j <= SCALE_COUNT
        invariant layers == LAYERS[..SCALE_COUNT * s + j]
        invariant agg == if SCALE_COUNT * s + j == |LAYERS| then ANCHOR_COUNT else LAYERS[SCALE_COUNT * s + j].0
      {
        layers := layers + [(agg, stride)];
        agg := agg + WIDTH * HEIGHT / stride / stride;
        j := j + 1;
      }
      s := s + 1;
    }
  }

  /** The search loop of `gen_anchor`: the stride and the offset into the
      last layer that starts at or before `offset`. */
  method FindLayer(layers: seq<(nat, nat)>, offset: nat) returns (stride: nat, layerIdx: nat)
    requires layers == LAYERS && offset < ANCHOR_COUNT
    ensures stride == 8 || stride == 16
    ensures exists l: nat :: SelectsLayer(offset, l) && stride == LAYERS[l].1 && layerIdx == offset - LAYERS[l].0
  {
    stride := 0;
    layerIdx := 0;
    var k := 0;
    ghost var found := 0;
    while k < |layers|
      invariant 0 <= k <= |layers|
      invariant forall i :: 0 <= i < k ==> layers[i].0 <= offset
      invariant k > 0 ==> found == k - 1 && stride == LAYERS[found].1 && layerIdx == offset - LAYERS[found].0
    {
      if layers[k].0 > offset {
        break;
      }
      stride := layers[k].1;
      layerIdx := offset - layers[k].0;
      found := k;
      k := k + 1;
    }
    assert layers[0].0 == 0;
    assert SelectsLayer(offset, found);
  }

  /** Offsets 0 to 511 fall in the stride-8 layers and 512 to 895 in the
      stride-16 layers; each layer holds exactly the cells of its grid. */
  lemma LayerStrides(offset: nat, l: nat)
    requires SelectsLayer(offset, l) && offset < ANCHOR_COUNT
    ensures offset < 512 ==> LAYERS[l].1 == 8
    ensures offset >= 512 ==> LAYERS[l].1 == 16
    ensures offset - LAYERS[l].0 < (WIDTH / LAYERS[l].1) * (WIDTH / LAYERS[l].1)
  {
  }

  /** Every anchor is a unit box on its layer's grid: both coordinates are
      multiples of the stride and inside the 128 by 128 input. */
  lemma CellOnGrid(offset: nat, l: nat)
    requires SelectsLayer(offset, l) && offset < ANCHOR_COUNT
    ensures var r := Cell(offset, LAYERS[l].0, LAYERS[l].1);
      r.w == 1 && r.h == 1 &&
      r.x % LAYERS[l].1 == 0 && r.y % LAYERS[l].1 == 0 &&
      r.x < WIDTH && r.y < HEIGHT
  {
    LayerStrides(offset, l);
    var idx := offset - LAYERS[l].0;
    if LAYERS[l].1 == 8 {
      GridCell8(idx);
    } else {
      GridCell16(idx);
    }
  }

  /** Cell `idx` of the 16 by 16 grid of stride 8. */
  lemma GridCell8(idx: nat)
    requires idx < 256
    ensures (idx / 16 * 8) % 8 == 0 && (idx % 16 * 8) % 8 == 0
    ensures idx / 16 * 8 < 128 && idx % 16 * 8 < 128
  {
    var q, m := idx / 16, idx % 16;
    assert q < 16;
    assert (q * 8) % 8 == 0 && (m * 8) % 8 == 0;
  }

  /** Cell `idx` of the 8 by 8 grid of stride 16. */
  lemma GridCell16(idx: nat)
    requires idx < 64
    ensures (idx / 8 * 16) % 16 == 0 && (idx % 8 * 16) % 16 == 0
    ensures idx / 8 * 16 < 128 && idx % 8 * 16 < 128
  {
    var q, m := idx / 8, idx % 8;
    assert q < 8;
    assert (q * 16) % 16 == 0 && (m * 16) % 16 == 0;
  }

  /** `scale`: a single stride sits midway between the two scales; several
      are interpolated linearly, the first at `min` and the last at `max`. */
  function Scale(minScale: real, maxScale: real, stride: nat, strides: nat): (s: real)
    ensures strides == 1 ==> s == (minScale + maxScale) * 0.5
    ensures strides > 1 && stride == 0 ==> s == minScale
    ensures strides > 1 && stride == strides - 1 ==> s == maxScale
  {
    if strides == 1 then (minScale + maxScale) * 0.5
    else
      var n := strides as real - 1.0;
      assert stride == strides - 1 ==> (maxScale - minScale) * stride as real / n == maxScale - minScale by {
        if stride == strides - 1 {
          assert stride as real == n;
          ScaleQuotient(maxScale - minScale, n, n);
        }
      }
      minScale + (maxScale - minScale) * stride as real / n
  }

  /** `a * k / d` is `k` steps of `a / d`. */
  lemma ScaleQuotient(a: real, k: real, d: real)
    requires d != 0.0
    ensures a * k / d == (a / d) * k
    ensures k == d ==> a * k / d == a
  {
  }

  lemma StepDistributes(s: real, k: nat)
    ensures s * (k + 1) as real - s * k as real == s
  {
  }

  /** Scale `stride` is `stride` increments above `min`. */
  lemma ScaleAt(minScale: real, maxScale: real, stride: nat, strides: nat)
    requires strides > 1
    ensures Scale(minScale, maxScale, stride, strides) ==
      minScale + (maxScale - minScale) / (strides as real - 1.0) * stride as real
  {
    ScaleQuotient(maxScale - minScale, stride as real, strides as real - 1.0);
  }

  /** With more than one stride the scales climb evenly from `min`: each
      step adds the same increment. */
  lemma ScaleSteps(minScale: real, maxScale: real, stride: nat, strides: nat)
    requires strides > 1
    ensures Scale(minScale, maxScale, stride + 1, strides) - Scale(minScale, maxScale, stride, strides) ==
      (maxScale - minScale) / (strides as real - 1.0)
  {
    ScaleAt(minScale, maxScale, stride + 1, strides);
    ScaleAt(minScale, maxScale, stride, strides);
    StepDistributes((maxScale - minScale) / (strides as real - 1.0), stride);
  }
}
