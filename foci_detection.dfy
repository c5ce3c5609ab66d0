/**
 * `detect_blobs` of json_generation.py: the post-processing of the blob
 * detector's output. Each blob row `(y, x, sigma)` is truncated to a pixel,
 * kept only when that pixel lies inside the label image and carries a
 * nucleus label, and then counted, its area `pi * sigma^2` accumulated, and
 * its detection recorded. The detector itself is outside the model: its rows
 * are an input.
 */
module FociDetection {
  import opened Wrappers

  /** `math.pi`. */
  const Pi: real := 3.141592653589793

  /** One row of the detector's output; for a 2-D image it holds `y, x, sigma`. */
  type Blob = seq<real>

  /** A label image of `width` columns: `rows[y][x]` is the nucleus label at `(y, x)`, 0 for background. */
  datatype Seg = Seg(width: nat, rows: seq<seq<int>>)

  /** Every row has `width` entries, as a 2-D array's rows do. */
  predicate Rectangular(seg: Seg) {
    forall y :: 0 <= y < |seg.rows| ==> |seg.rows[y]| == seg.width
  }

  /** The label images np.load can return. */
  type Mask = seg: Seg | Rectangular(seg) witness Seg(0, [])

  /** A kept blob: the label under it, its truncated column and row, and its sigma. */
  datatype Detection = Detection(nucId: int, x: int, y: int, sigma: real)

  /** Python's `int()` on a float: truncation toward zero. */
  function Trunc(r: real): int {
    if r >= 0.0 then r.Floor else -((-r).Floor)
  }

  /** The fate of one blob: rows shorter than three are skipped; a pixel outside the image or on background is dropped. */
  function Classify(b: Blob, seg: Mask): Option<Detection>
  {
    if |b| < 3 then None
    else
      var y, x := Trunc(b[0]), Trunc(b[1]);
      if 0 <= y < |seg.rows| && 0 <= x < seg.width && seg.rows[y][x] > 0
      then Some(Detection(seg.rows[y][x], x, y, b[2]))
      else None
  }

  /** The kept blobs, in detector order. */
  function Detections(blobs: seq<Blob>, seg: Mask): seq<Detection>
  {
    if blobs == [] then []
    else
      Detections(blobs[..|blobs| - 1], seg) +
        (match Classify(blobs[|blobs| - 1], seg) case Some(d) => [d] case None => [])
  }

  /** How many detections carry `id`. */
  function CountOf(dets: seq<Detection>, id: int): nat {
    if dets == [] then 0
    else CountOf(dets[..|dets| - 1], id) + (if dets[|dets| - 1].nucId == id then 1 else 0)
  }

  /** The summed blob area `pi * sigma^2` of the detections carrying `id`. */
  function AreaOf(dets: seq<Detection>, id: int): real {
    if dets == [] then 0.0
    else
      var d := dets[|dets| - 1];
      AreaOf(dets[..|dets| - 1], id) + (if d.nucId == id then Pi * d.sigma * d.sigma else 0.0)
  }

  /**
   * `detect_blobs`: one pass over the detector's rows building the count and
   * area dictionaries and the detection list. A label is a key of both
   * dictionaries iff at least one kept blob carries it, and then maps to its
   * count and its summed area.
   */
  method DetectBlobs(blobs: seq<Blob>, seg: Mask) returns (counts: map<int, nat>, areaPix: map<int, real>, coords: seq<Detection>)
    ensures coords == Detections(blobs, seg)
    ensures forall l :: l in counts <==> CountOf(coords, l) > 0
    ensures forall l :: l in counts ==> counts[l] == CountOf(coords, l)
    ensures forall l :: l in areaPix <==> l in counts
    ensures forall l :: l in areaPix ==> areaPix[l] == AreaOf(coords, l)
  {
    counts := map[];
    areaPix := map[];
    coords := [];
    for i := 0 to |blobs|
      invariant coords == Detections(blobs[..i], seg)
      invariant Tallied(counts, areaPix, coords)
    {
      assert blobs[..i + 1][..i] == blobs[..i];
      var blob := blobs[i];
      if |blob| < 3 {
        continue;
      }
      var y, x, sigma := Trunc(blob[0]), Trunc(blob[1]), blob[2];
      if 0 <= y < |seg.rows| && 0 <= x < seg.width {
        var nucId := seg.rows[y][x];
        if nucId > 0 {
          var d := Detection(nucId, x, y, sigma);
          counts, areaPix := TallyOne(counts, areaPix, coords, d);
          coords := coords + [d];
        }
      }
    }
    assert blobs[..|blobs|] == blobs;
  }

  /** The two dictionaries agree with the detections recorded so far. */
  ghost predicate Tallied(counts: map<int, nat>, areaPix: map<int, real>, coords: seq<Detection>) {
    && (forall l :: l in counts <==> CountOf(coords, l) > 0)
    && (forall l :: l in counts ==> counts[l] == CountOf(coords, l))
    && (forall l :: l in areaPix <==> l in counts)
    && (forall l :: l in areaPix ==> areaPix[l] == AreaOf(coords, l))
  }

  /** The loop body's dictionary updates for one kept blob. */
  method TallyOne(counts: map<int, nat>, areaPix: map<int, real>, coords: seq<Detection>, d: Detection)
    returns (counts': map<int, nat>, areaPix': map<int, real>)
    requires Tallied(counts, areaPix, coords)
    ensures Tallied(counts', areaPix', coords + [d])
  {
    var id, sigma := d.nucId, d.sigma;
    counts' := counts[id := (if id in counts then counts[id] else 0) + 1];
    areaPix' := areaPix[id := (if id in areaPix then areaPix[id] else 0.0) + Pi * sigma * sigma];
    forall l
      ensures CountOf(coords + [d], l) == CountOf(coords, l) + (if l == id then 1 else 0)
      ensures AreaOf(coords + [d], l) == AreaOf(coords, l) + (if l == id then Pi * sigma * sigma else 0.0)
    {
      assert (coords + [d])[..|coords|] == coords;
    }
    AreaWithoutCount(coords, id);
  }

  /** A label with no detection has no area. */
  lemma {:induction false} AreaWithoutCount(dets: seq<Detection>, id: int)
    ensures CountOf(dets, id) == 0 ==> AreaOf(dets, id) == 0.0
  {
    if dets != [] {
      AreaWithoutCount(dets[..|dets| - 1], id);
    }
  }

  /** Truncation toward zero: the floor for non-negative values, the ceiling for negative ones. */
  lemma TruncTowardZero(r: real)
    ensures r >= 0.0 ==> 0 <= Trunc(r) && Trunc(r) as real <= r < Trunc(r) as real + 1.0
    ensures r < 0.0 ==> Trunc(r) <= 0 && Trunc(r) as real - 1.0 < r <= Trunc(r) as real
  {
  }

  /** A blob centred just above the first row (`y = -0.5`) truncates onto row 0 and counts there. */
  lemma TruncExamples()
    ensures Trunc(-0.5) == 0 && Trunc(2.7) == 2 && Trunc(-2.7) == -2
  {
  }

  /** Every kept detection sits inside the image on a pixel labelled with its own, positive, label. */
  lemma {:induction false} DetectionsSound(blobs: seq<Blob>, seg: Mask)
    ensures forall d :: d in Detections(blobs, seg) ==>
      0 <= d.y < |seg.rows| && 0 <= d.x < seg.width && seg.rows[d.y][d.x] == d.nucId && d.nucId > 0
  {
    if blobs != [] {
      DetectionsSound(blobs[..|blobs| - 1], seg);
    }
  }

  /** A detection is kept iff some blob classifies to it; there are never more detections than blobs. */
  lemma {:induction false} DetectionsExact(blobs: seq<Blob>, seg: Mask, d: Detection)
    ensures d in Detections(blobs, seg) <==> exists i :: 0 <= i < |blobs| && Classify(blobs[i], seg) == Some(d)
    ensures |Detections(blobs, seg)| <= |blobs|
  {
    if blobs != [] {
      var init := blobs[..|blobs| - 1];
      DetectionsExact(init, seg, d);
      assert forall i :: 0 <= i < |init| ==> init[i] == blobs[i];
      if exists i :: 0 <= i < |blobs| && Classify(blobs[i], seg) == Some(d) {
        var i :| 0 <= i < |blobs| && Classify(blobs[i], seg) == Some(d);
        if i < |init| {
          assert Classify(init[i], seg) == Some(d);
        }
      }
    }
  }

  /** Background is never counted, and no label is counted more often than there are detections. */
  lemma {:induction false} CountBounds(blobs: seq<Blob>, seg: Mask, id: int)
    ensures id <= 0 ==> CountOf(Detections(blobs, seg), id) == 0
    ensures CountOf(Detections(blobs, seg), id) <= |Detections(blobs, seg)|
  {
    DetectionsSound(blobs, seg);
    CountNone(Detections(blobs, seg), id);
  }

  lemma {:induction false} CountNone(dets: seq<Detection>, id: int)
    ensures CountOf(dets, id) == 0 <==> forall d :: d in dets ==> d.nucId != id
    ensures CountOf(dets, id) <= |dets|
  {
    if dets != [] {
      var init := dets[..|dets| - 1];
      assert forall d :: d in dets <==> d in init || d == dets[|dets| - 1];
      CountNone(init, id);
    }
  }
}
