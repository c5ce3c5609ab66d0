/**
 * The three coordinate spaces of the viewer: raw tile pixels, the scaled
 * mosaic, and the zoomed dashboard canvas (script.js, the bounding-box loop
 * in `renderMergedCanvas` and the `tileBox` conversion in `renderZoomView`).
 * Coordinates are exact reals; the browser's doubles are not modelled.
 */
module Transform {
  import opened Wrappers
  import opened Records

  /** The inclusive raw-space extent of a mask: columns `minX..maxX`, rows `minY..maxY`. */
  datatype RawBox = RawBox(minX: int, minY: int, maxX: int, maxY: int)

  /** An axis-aligned box `{x, y, width, height}`. */
  datatype Box = Box(x: real, y: real, width: real, height: real)

  /** The running box after one more coordinate, starting from the infinite box (`None`). */
  function Extend(b: Option<RawBox>, p: Coord): RawBox {
    var (y, x) := p;
    match b
    case None => RawBox(x, y, x, y)
    case Some(r) =>
      RawBox(if x < r.minX then x else r.minX, if y < r.minY then y else r.minY,
             if x > r.maxX then x else r.maxX, if y > r.maxY then y else r.maxY)
  }

  /** The box the loop ends with; `None` for an empty mask, whose box the source leaves infinite. */
  function BoundsOf(coords: seq<Coord>): Option<RawBox> {
    if coords == [] then None else Some(Extend(BoundsOf(coords[..|coords| - 1]), coords[|coords| - 1]))
  }

  /** Every coordinate lies in the box. */
  predicate Encloses(b: RawBox, coords: seq<Coord>) {
    forall k :: 0 <= k < |coords| ==> b.minX <= coords[k].1 <= b.maxX && b.minY <= coords[k].0 <= b.maxY
  }

  /** Each side of the box is attained by some coordinate. */
  predicate Attained(b: RawBox, coords: seq<Coord>) {
    && (exists k :: 0 <= k < |coords| && coords[k].1 == b.minX)
    && (exists k :: 0 <= k < |coords| && coords[k].1 == b.maxX)
    && (exists k :: 0 <= k < |coords| && coords[k].0 == b.minY)
    && (exists k :: 0 <= k < |coords| && coords[k].0 == b.maxY)
  }

  /**
   * The min/max loop of `renderMergedCanvas`; `any == false` stands for the
   * initial `Infinity`/`-Infinity`, which every first comparison replaces.
   */
  method ComputeBounds(coords: seq<Coord>) returns (b: Option<RawBox>)
    ensures b == BoundsOf(coords)
  {
    var any := false;
    var minX, minY, maxX, maxY := 0, 0, 0, 0;
    var i := 0;
    while i < |coords|
      invariant 0 <= i <= |coords|
      invariant any == (i > 0)
      invariant any ==> BoundsOf(coords[..i]) == Some(RawBox(minX, minY, maxX, maxY))
    {
      var (y, x) := coords[i];
      if !any || x < minX { minX := x; }
      if !any || y < minY { minY := y; }
      if !any || x > maxX { maxX := x; }
      if !any || y > maxY { maxY := y; }
      any := true;
      assert coords[..i + 1][..i] == coords[..i];
      i := i + 1;
    }
    assert coords[..i] == coords;
    b := if any then Some(RawBox(minX, minY, maxX, maxY)) else None;
  }

  /** The loop yields the tightest box: it encloses every coordinate and each side is attained. */
  lemma {:induction false} BoundsOfIsTight(coords: seq<Coord>)
    ensures BoundsOf(coords).None? <==> coords == []
    ensures BoundsOf(coords).Some? ==> Encloses(BoundsOf(coords).value, coords) && Attained(BoundsOf(coords).value, coords)
  {
    if coords != [] {
      var init := coords[..|coords| - 1];
      var n := |coords| - 1;
      BoundsOfIsTight(init);
      var b := BoundsOf(coords).value;
      assert forall k :: 0 <= k < n ==> coords[k] == init[k];
      if init == [] {
        assert b == RawBox(coords[0].1, coords[0].0, coords[0].1, coords[0].0);
      } else {
        var r := BoundsOf(init).value;
        assert Encloses(b, coords);
        var k1 :| 0 <= k1 < n && init[k1].1 == r.minX;
        var k2 :| 0 <= k2 < n && init[k2].1 == r.maxX;
        var k3 :| 0 <= k3 < n && init[k3].0 == r.minY;
        var k4 :| 0 <= k4 < n && init[k4].0 == r.maxY;
        assert coords[if b.minX == r.minX then k1 else n].1 == b.minX;
        assert coords[if b.maxX == r.maxX then k2 else n].1 == b.maxX;
        assert coords[if b.minY == r.minY then k3 else n].0 == b.minY;
        assert coords[if b.maxY == r.maxY then k4 else n].0 == b.maxY;
      }
    }
  }

  /** The worked example: `[[2,3],[2,5],[4,3]]` spans x 3..5 and y 2..4, three pixels each way. */
  lemma BoundsExample()
    ensures BoundsOf([(2, 3), (2, 5), (4, 3)]) == Some(RawBox(3, 2, 5, 4))
    ensures RawWidth(RawBox(3, 2, 5, 4)) == 3 && RawHeight(RawBox(3, 2, 5, 4)) == 3
  {
    var c := [(2, 3), (2, 5), (4, 3)];
    assert c[..2][..1] == [(2, 3)] && [(2, 3)][..0] == [];
    assert BoundsOf([(2, 3)]) == Some(RawBox(3, 2, 3, 2));
    assert c[..2] == [(2, 3), (2, 5)];
    assert BoundsOf(c[..2]) == Some(RawBox(3, 2, 5, 2));
  }

  function RawWidth(b: RawBox): int { b.maxX - b.minX + 1 }
  function RawHeight(b: RawBox): int { b.maxY - b.minY + 1 }

  /** The region box in mosaic space: the raw extent scaled by `s` and moved to the tile's offset. */
  function MosaicBox(b: RawBox, offX: real, offY: real, s: real): Box {
    Box(offX + b.minX as real * s, offY + b.minY as real * s,
        RawWidth(b) as real * s, RawHeight(b) as real * s)
  }

  /** `tileBox`: a mosaic box converted back to raw tile space. */
  function TileBox(box: Box, offX: real, offY: real, s: real): Box
    requires s != 0.0
  {
    Box((box.x - offX) / s, (box.y - offY) / s, box.width / s, box.height / s)
  }

  /** The raw extent as a box: corner `(minX, minY)`, inclusive span as width and height. */
  function RawAsBox(b: RawBox): Box {
    Box(b.minX as real, b.minY as real, RawWidth(b) as real, RawHeight(b) as real)
  }

  lemma ScaleBack(v: real, off: real, s: real)
    requires s != 0.0
    ensures (off + v * s - off) / s == v
    ensures (v * s) / s == v
  {
    assert off + v * s - off == v * s;
  }

  /** Converting the mosaic box back recovers the raw box exactly: `(box.x - offX)/s = minX`, `box.width/s = maxX - minX + 1`. */
  lemma TileBoxRoundTrip(b: RawBox, offX: real, offY: real, s: real)
    requires s != 0.0
    ensures TileBox(MosaicBox(b, offX, offY, s), offX, offY, s) == RawAsBox(b)
  {
    ScaleBack(b.minX as real, offX, s);
    ScaleBack(b.minY as real, offY, s);
    ScaleBack(RawWidth(b) as real, 0.0, s);
    ScaleBack(RawHeight(b) as real, 0.0, s);
  }

  /** The half-open test of the zoom view: `x >= tb.x && x < tb.x + tb.width`, likewise for y. */
  predicate InHalfOpen(tb: Box, p: Coord) {
    var (y, x) := p;
    tb.x <= x as real < tb.x + tb.width && tb.y <= y as real < tb.y + tb.height
  }

  /** On a raw box the half-open test is exactly the inclusive integer test `minX <= x <= maxX`. */
  lemma HalfOpenIsInclusive(b: RawBox, p: Coord)
    ensures InHalfOpen(RawAsBox(b), p) <==> b.minX <= p.1 <= b.maxX && b.minY <= p.0 <= b.maxY
  {
  }

  /** A point in zoom-canvas space: the raw point relative to the box corner, times the zoom factor. */
  function ZoomPoint(tb: Box, p: Coord, z: real): (real, real) {
    ((p.1 as real - tb.x) * z, (p.0 as real - tb.y) * z)
  }

  /** The zoomed foci markers: the foci inside the half-open box, in order, moved to zoom space. */
  function ZoomFoci(foci: seq<Coord>, tb: Box, z: real): seq<(real, real)> {
    if foci == [] then []
    else
      var last := foci[|foci| - 1];
      ZoomFoci(foci[..|foci| - 1], tb, z) + (if InHalfOpen(tb, last) then [ZoomPoint(tb, last, z)] else [])
  }

  /** A marker is drawn iff its focus passes the half-open test, and then at the zoomed position. */
  lemma {:induction false} ZoomFociMembership(foci: seq<Coord>, tb: Box, z: real, q: (real, real))
    ensures q in ZoomFoci(foci, tb, z) <==> exists f :: f in foci && InHalfOpen(tb, f) && q == ZoomPoint(tb, f, z)
  {
    if foci != [] {
      var init := foci[..|foci| - 1];
      var last := foci[|foci| - 1];
      assert foci == init + [last];
      ZoomFociMembership(init, tb, z, q);
      if q in ZoomFoci(foci, tb, z) && q !in ZoomFoci(init, tb, z) {
        assert InHalfOpen(tb, last) && q == ZoomPoint(tb, last, z);
      }
      if exists f :: f in foci && InHalfOpen(tb, f) && q == ZoomPoint(tb, f, z) {
        var f :| f in foci && InHalfOpen(tb, f) && q == ZoomPoint(tb, f, z);
        if f != last {
          assert f in init;
        }
      }
    }
  }

  /** Every zoomed marker lies inside the `width*z` by `height*z` canvas. */
  lemma {:induction false} ZoomFociInsideCanvas(foci: seq<Coord>, tb: Box, z: real)
    requires z > 0.0
    ensures forall k :: 0 <= k < |ZoomFoci(foci, tb, z)| ==>
      0.0 <= ZoomFoci(foci, tb, z)[k].0 < tb.width * z && 0.0 <= ZoomFoci(foci, tb, z)[k].1 < tb.height * z
  {
    if foci != [] {
      var last := foci[|foci| - 1];
      ZoomFociInsideCanvas(foci[..|foci| - 1], tb, z);
      if InHalfOpen(tb, last) {
        var (px, py) := ZoomPoint(tb, last, z);
        assert 0.0 <= last.1 as real - tb.x < tb.width;
        assert 0.0 <= last.0 as real - tb.y < tb.height;
        MulLess(last.1 as real - tb.x, tb.width, z);
        MulLess(last.0 as real - tb.y, tb.height, z);
      }
    }
  }

  lemma MulLess(a: real, b: real, z: real)
    requires 0.0 <= a < b && z > 0.0
    ensures 0.0 <= a * z < b * z
  {
  }

  /** When every focus passes the test, every focus is drawn: the filter keeps the whole list. */
  lemma {:induction false} ZoomFociKeepsAll(foci: seq<Coord>, tb: Box, z: real)
    requires forall k :: 0 <= k < |foci| ==> InHalfOpen(tb, foci[k])
    ensures |ZoomFoci(foci, tb, z)| == |foci|
  {
    if foci != [] {
      ZoomFociKeepsAll(foci[..|foci| - 1], tb, z);
    }
  }
}
