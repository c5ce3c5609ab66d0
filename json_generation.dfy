/**
 * The tile loop of json_generation.py: for each listed RAD51 tile with a
 * segmentation, one record per `regionprops` region holding its label, area,
 * centroid and pixel list and, for every threshold of each available
 * detector, the foci count, the area fraction and the foci coordinates under
 * the keys the viewer reads. Image decoding, normalisation and the blob
 * detector are outside the model: each tile's label image, the presence of a
 * probability map and the detector's rows are inputs.
 */
module JsonGeneration {
  import opened Wrappers
  import opened Records
  import opened FociDetection
  import opened LabelImage

  /** `str()` of `rad51_thresholds` and `prob_thresholds`, as they appear in the keys. */
  const Rad51Thresholds: seq<string> := ["0.15", "0.2", "0.25"]
  const ProbThresholds: seq<string> := ["0.3", "0.365", "0.4"]

  /** The detector's rows for a method and a threshold on one tile. */
  type BlobSource = (string, string) -> seq<Blob>

  /** `[[int(y), int(x)] for nid, x, y, sigma in coord_list if nid == region_id]`. */
  function FociOf(dets: seq<Detection>, id: int): seq<Coord> {
    if dets == [] then []
    else
      var d := dets[|dets| - 1];
      FociOf(dets[..|dets| - 1], id) + (if d.nucId == id then [(d.y, d.x)] else [])
  }

  /** `area_pix.get(region_id, 0) / area if area > 0 else 0`. */
  function AreaFraction(dets: seq<Detection>, id: int, area: int): real {
    if area > 0 then AreaOf(dets, id) / area as real else 0.0
  }

  /** The per-threshold fields of one nucleus, gathered so far. */
  datatype Entries = Entries(counts: map<string, int>, areas: map<string, real>, coords: map<string, seq<Coord>>)

  const NoEntries := Entries(map[], map[], map[])

  /** The three fields one threshold writes for nucleus `id`, given that threshold's detections. */
  function WithThreshold(e: Entries, detector: string, th: string, dets: seq<Detection>, id: int, area: int): Entries {
    Entries(e.counts[CountKey(detector, th) := CountOf(dets, id)],
            e.areas[AreaKey(detector, th) := AreaFraction(dets, id, area)],
            e.coords[CoordsKey(detector, th) := FociOf(dets, id)])
  }

  /** The fields of `e` followed by those of every threshold of `ths`, in order, for one detector. */
  function EntriesFor(e: Entries, detector: string, ths: seq<string>, seg: Mask, id: int, area: int, blobs: BlobSource): Entries {
    if ths == [] then e
    else
      var th := ths[|ths| - 1];
      WithThreshold(EntriesFor(e, detector, ths[..|ths| - 1], seg, id, area, blobs), detector, th,
                    Detections(blobs(detector, th), seg), id, area)
  }

  /**
   * The `data` dict of region `id`: the RAD51 fields first, then the
   * probability-map fields when a map exists. `regionprops` reports only
   * labels that occur, so the centroid of a reported region is always there.
   */
  function NucleusRecord(seg: Mask, id: int, hasProb: bool, blobs: BlobSource): Nucleus {
    var pixels := PixelsOf(seg, id);
    var area := |pixels|;
    var e1 := EntriesFor(NoEntries, Rad51, Rad51Thresholds, seg, id, area, blobs);
    var e := if hasProb then EntriesFor(e1, Prob, ProbThresholds, seg, id, area, blobs) else e1;
    Nucleus(id, area, if pixels == [] then None else Some(Centroid(pixels)), Some(pixels), e.counts, e.areas, e.coords)
  }

  /** One threshold's `detect_blobs` call and the three fields it writes. */
  method AddThreshold(e: Entries, detector: string, th: string, seg: Mask, id: int, area: int, blobs: BlobSource)
    returns (e': Entries)
    ensures e' == WithThreshold(e, detector, th, Detections(blobs(detector, th), seg), id, area)
  {
    var counts, areaPix, coordList := DetectBlobs(blobs(detector, th), seg);
    var count := if id in counts then counts[id] else 0;
    var areaSum := if id in areaPix then areaPix[id] else 0.0;
    assert id !in areaPix ==> AreaOf(coordList, id) == 0.0 by {
      AreaWithoutCount(coordList, id);
    }
    var fraction := if area > 0 then areaSum / area as real else 0.0;
    e' := Entries(e.counts[CountKey(detector, th) := count],
                  e.areas[AreaKey(detector, th) := fraction],
                  e.coords[CoordsKey(detector, th) := FociOf(coordList, id)]);
  }

  /** The body of the region loop: the region's geometry, then the two threshold loops. */
  method BuildNucleus(seg: Mask, id: int, hasProb: bool, blobs: BlobSource) returns (n: Nucleus)
    ensures n == NucleusRecord(seg, id, hasProb, blobs)
  {
    var pixels := PixelsOf(seg, id);
    var area := |pixels|;
    var centroid := if pixels == [] then None else Some(Centroid(pixels));
    var e := NoEntries;
    for i := 0 to |Rad51Thresholds|
      invariant e == EntriesFor(NoEntries, Rad51, Rad51Thresholds[..i], seg, id, area, blobs)
    {
      assert Rad51Thresholds[..i + 1][..i] == Rad51Thresholds[..i];
      e := AddThreshold(e, Rad51, Rad51Thresholds[i], seg, id, area, blobs);
    }
    assert Rad51Thresholds[..|Rad51Thresholds|] == Rad51Thresholds;
    var e1 := e;
    for i := 0 to |ProbThresholds|
      invariant e == if hasProb then EntriesFor(e1, Prob, ProbThresholds[..i], seg, id, area, blobs) else e1
    {
      assert ProbThresholds[..i + 1][..i] == ProbThresholds[..i];
      if hasProb {
        e := AddThreshold(e, Prob, ProbThresholds[i], seg, id, area, blobs);
      }
    }
    assert ProbThresholds[..|ProbThresholds|] == ProbThresholds;
    n := Nucleus(id, area, centroid, Some(pixels), e.counts, e.areas, e.coords);
  }

  /** Every stored focus comes from a detection of that nucleus, and there is one per such detection. */
  lemma {:induction false} FociOfSpec(dets: seq<Detection>, id: int)
    ensures |FociOf(dets, id)| == CountOf(dets, id)
    ensures forall f :: f in FociOf(dets, id) <==> exists d :: d in dets && d.nucId == id && f == (d.y, d.x)
  {
    if dets != [] {
      var init := dets[..|dets| - 1];
      FociOfSpec(init, id);
      assert forall d :: d in init ==> d in dets;
      assert forall d :: d in dets ==> d in init || d == dets[|dets| - 1];
    }
  }

  /**
   * Each stored focus of nucleus `id` is one of its own pixels, so it lies in
   * `pixel_coords`; the count equals the number of stored foci, and both are
   * zero exactly when no kept blob falls on the nucleus.
   */
  lemma FociInNucleus(blobs: seq<Blob>, seg: Mask, id: int)
    ensures forall f :: f in FociOf(Detections(blobs, seg), id) ==> f in PixelsOf(seg, id)
    ensures |FociOf(Detections(blobs, seg), id)| == CountOf(Detections(blobs, seg), id)
    ensures CountOf(Detections(blobs, seg), id) == 0 <==> forall d :: d in Detections(blobs, seg) ==> d.nucId != id
  {
    var dets := Detections(blobs, seg);
    FociOfSpec(dets, id);
    DetectionsSound(blobs, seg);
    PixelsOfSpec(seg, id);
    CountNone(dets, id);
  }

  /** A key some threshold of `ths` writes for `detector`. */
  predicate CountKeyOf(k: string, detector: string, ths: seq<string>) {
    exists th :: th in ths && k == CountKey(detector, th)
  }

  predicate AreaKeyOf(k: string, detector: string, ths: seq<string>) {
    exists th :: th in ths && k == AreaKey(detector, th)
  }

  predicate CoordsKeyOf(k: string, detector: string, ths: seq<string>) {
    exists th :: th in ths && k == CoordsKey(detector, th)
  }

  /** The thresholds' loop adds exactly its own keys and leaves every other entry alone. */
  lemma {:induction false} EntriesForKeys(e: Entries, detector: string, ths: seq<string>, seg: Mask, id: int, area: int, blobs: BlobSource, k: string)
    ensures var r := EntriesFor(e, detector, ths, seg, id, area, blobs);
      && (k in r.counts <==> k in e.counts || CountKeyOf(k, detector, ths))
      && (k in r.areas <==> k in e.areas || AreaKeyOf(k, detector, ths))
      && (k in r.coords <==> k in e.coords || CoordsKeyOf(k, detector, ths))
      && (!CountKeyOf(k, detector, ths) && k in e.counts ==> r.counts[k] == e.counts[k])
      && (!AreaKeyOf(k, detector, ths) && k in e.areas ==> r.areas[k] == e.areas[k])
      && (!CoordsKeyOf(k, detector, ths) && k in e.coords ==> r.coords[k] == e.coords[k])
  {
    if ths != [] {
      var init := ths[..|ths| - 1];
      EntriesForKeys(e, detector, init, seg, id, area, blobs, k);
      assert forall th :: th in ths <==> th in init || th == ths[|ths| - 1];
    }
  }

  /** The entry of threshold `th` holds that threshold's count, area fraction and foci. */
  lemma {:induction false} EntriesForValues(e: Entries, detector: string, ths: seq<string>, seg: Mask, id: int, area: int, blobs: BlobSource, th: string)
    requires th in ths
    ensures var r, dets := EntriesFor(e, detector, ths, seg, id, area, blobs), Detections(blobs(detector, th), seg);
      && CountKey(detector, th) in r.counts && r.counts[CountKey(detector, th)] == CountOf(dets, id)
      && AreaKey(detector, th) in r.areas && r.areas[AreaKey(detector, th)] == AreaFraction(dets, id, area)
      && CoordsKey(detector, th) in r.coords && r.coords[CoordsKey(detector, th)] == FociOf(dets, id)
  {
    var last := ths[|ths| - 1];
    if th != last {
      var init := ths[..|ths| - 1];
      assert th in init;
      EntriesForValues(e, detector, init, seg, id, area, blobs, th);
      if CountKey(detector, th) == CountKey(detector, last) {
        PrefixAgree(detector + "_count_th", th, detector + "_count_th", last);
      }
      if AreaKey(detector, th) == AreaKey(detector, last) {
        PrefixAgree(detector + "_area_th", th, detector + "_area_th", last);
      }
      if CoordsKey(detector, th) == CoordsKey(detector, last) {
        PrefixAgree(detector + "_coords_th", th, detector + "_coords_th", last);
      }
    }
  }

  /** No probability-map key is ever a RAD51 key. */
  lemma ProbKeysAreNotRad51Keys(k: string)
    ensures CountKeyOf(k, Prob, ProbThresholds) ==> !CountKeyOf(k, Rad51, Rad51Thresholds)
    ensures AreaKeyOf(k, Prob, ProbThresholds) ==> !AreaKeyOf(k, Rad51, Rad51Thresholds)
    ensures CoordsKeyOf(k, Prob, ProbThresholds) ==> !CoordsKeyOf(k, Rad51, Rad51Thresholds)
  {
    if CountKeyOf(k, Prob, ProbThresholds) && CountKeyOf(k, Rad51, Rad51Thresholds) {
      var t1 :| t1 in ProbThresholds && k == CountKey(Prob, t1);
      var t2 :| t2 in Rad51Thresholds && k == CountKey(Rad51, t2);
      CountKeyInjective(Prob, t1, Rad51, t2);
    }
    if AreaKeyOf(k, Prob, ProbThresholds) && AreaKeyOf(k, Rad51, Rad51Thresholds) {
      var t1 :| t1 in ProbThresholds && k == AreaKey(Prob, t1);
      var t2 :| t2 in Rad51Thresholds && k == AreaKey(Rad51, t2);
      AreaKeyInjective(Prob, t1, Rad51, t2);
    }
    if CoordsKeyOf(k, Prob, ProbThresholds) && CoordsKeyOf(k, Rad51, Rad51Thresholds) {
      var t1 :| t1 in ProbThresholds && k == CoordsKey(Prob, t1);
      var t2 :| t2 in Rad51Thresholds && k == CoordsKey(Rad51, t2);
      CoordsKeyInjective(Prob, t1, Rad51, t2);
    }
  }

  /**
   * A record holds a count, an area and a coordinates key for every RAD51
   * threshold, the same for every probability threshold when a probability
   * map exists, and no other key.
   */
  lemma RecordKeys(seg: Mask, id: int, hasProb: bool, blobs: BlobSource, k: string)
    ensures var n := NucleusRecord(seg, id, hasProb, blobs);
      && (k in n.fociCounts <==> CountKeyOf(k, Rad51, Rad51Thresholds) || (hasProb && CountKeyOf(k, Prob, ProbThresholds)))
      && (k in n.fociAreas <==> AreaKeyOf(k, Rad51, Rad51Thresholds) || (hasProb && AreaKeyOf(k, Prob, ProbThresholds)))
      && (k in n.fociCoords <==> CoordsKeyOf(k, Rad51, Rad51Thresholds) || (hasProb && CoordsKeyOf(k, Prob, ProbThresholds)))
  {
    var area := |PixelsOf(seg, id)|;
    var e1 := EntriesFor(NoEntries, Rad51, Rad51Thresholds, seg, id, area, blobs);
    EntriesForKeys(NoEntries, Rad51, Rad51Thresholds, seg, id, area, blobs, k);
    EntriesForKeys(e1, Prob, ProbThresholds, seg, id, area, blobs, k);
  }

  /**
   * The stored fields of threshold `th` of an available detector: the count
   * of the detections on the nucleus, their summed area over the nucleus
   * area, and their coordinates, which number exactly the count and are all
   * pixels of the nucleus.
   */
  lemma RecordFields(seg: Mask, id: int, hasProb: bool, blobs: BlobSource, detector: string, th: string)
    requires (detector == Rad51 && th in Rad51Thresholds) || (detector == Prob && hasProb && th in ProbThresholds)
    ensures var n, dets := NucleusRecord(seg, id, hasProb, blobs), Detections(blobs(detector, th), seg);
      && CountKey(detector, th) in n.fociCounts && n.fociCounts[CountKey(detector, th)] == CountOf(dets, id)
      && AreaKey(detector, th) in n.fociAreas && n.fociAreas[AreaKey(detector, th)] == AreaFraction(dets, id, n.area)
      && CoordsKey(detector, th) in n.fociCoords && n.fociCoords[CoordsKey(detector, th)] == FociOf(dets, id)
      && |n.fociCoords[CoordsKey(detector, th)]| == n.fociCounts[CountKey(detector, th)]
      && n.pixelCoords.Some?
      && forall f :: f in n.fociCoords[CoordsKey(detector, th)] ==> f in n.pixelCoords.value
  {
    var area := |PixelsOf(seg, id)|;
    var e1 := EntriesFor(NoEntries, Rad51, Rad51Thresholds, seg, id, area, blobs);
    FociInNucleus(blobs(detector, th), seg, id);
    if detector == Rad51 {
      EntriesForValues(NoEntries, Rad51, Rad51Thresholds, seg, id, area, blobs, th);
      if hasProb {
        assert CountKeyOf(CountKey(Rad51, th), Rad51, Rad51Thresholds);
        assert AreaKeyOf(AreaKey(Rad51, th), Rad51, Rad51Thresholds);
        assert CoordsKeyOf(CoordsKey(Rad51, th), Rad51, Rad51Thresholds);
        ProbKeysAreNotRad51Keys(CountKey(Rad51, th));
        ProbKeysAreNotRad51Keys(AreaKey(Rad51, th));
        ProbKeysAreNotRad51Keys(CoordsKey(Rad51, th));
        EntriesForKeys(e1, Prob, ProbThresholds, seg, id, area, blobs, CountKey(Rad51, th));
        EntriesForKeys(e1, Prob, ProbThresholds, seg, id, area, blobs, AreaKey(Rad51, th));
        EntriesForKeys(e1, Prob, ProbThresholds, seg, id, area, blobs, CoordsKey(Rad51, th));
      }
    } else {
      EntriesForValues(e1, Prob, ProbThresholds, seg, id, area, blobs, th);
    }
  }

  /** Without a probability map no `prob_*` field is written. */
  lemma NoProbKeysWithoutMap(seg: Mask, id: int, blobs: BlobSource, th: string)
    ensures var n := NucleusRecord(seg, id, false, blobs);
      CountKey(Prob, th) !in n.fociCounts && AreaKey(Prob, th) !in n.fociAreas && CoordsKey(Prob, th) !in n.fociCoords
  {
    var k1, k2, k3 := CountKey(Prob, th), AreaKey(Prob, th), CoordsKey(Prob, th);
    RecordKeys(seg, id, false, blobs, k1);
    RecordKeys(seg, id, false, blobs, k2);
    RecordKeys(seg, id, false, blobs, k3);
    if CountKeyOf(k1, Rad51, Rad51Thresholds) {
      var t :| t in Rad51Thresholds && k1 == CountKey(Rad51, t);
      CountKeyInjective(Prob, th, Rad51, t);
    }
    if AreaKeyOf(k2, Rad51, Rad51Thresholds) {
      var t :| t in Rad51Thresholds && k2 == AreaKey(Rad51, t);
      AreaKeyInjective(Prob, th, Rad51, t);
    }
    if CoordsKeyOf(k3, Rad51, Rad51Thresholds) {
      var t :| t in Rad51Thresholds && k3 == CoordsKey(Rad51, t);
      CoordsKeyInjective(Prob, th, Rad51, t);
    }
  }

  /** A region that `regionprops` reports has a positive area and a centroid inside its own bounding box. */
  lemma ReportedRegionGeometry(seg: Mask, id: int, hasProb: bool, blobs: BlobSource)
    requires id in RegionLabels(seg)
    ensures var n := NucleusRecord(seg, id, hasProb, blobs);
      && n.regionId == id && n.area > 0 && n.area == |n.pixelCoords.value| && n.centroid.Some?
      && (forall p :: p in n.pixelCoords.value <==> Labelled(seg, id, p))
  {
    RegionLabelsSpec(seg);
    PixelsOfSpec(seg, id);
  }

  /** `s.endswith(suffix)`. */
  predicate EndsWith(s: string, suffix: string) {
    |suffix| <= |s| && s[|s| - |suffix|..] == suffix
  }

  /** `pat in s`. */
  predicate Contains(s: string, pat: string)
    decreases |s|
  {
    if |s| < |pat| then false else s[..|pat|] == pat || Contains(s[1..], pat)
  }

  /** The listing filter: PNG files that are not probability maps. */
  predicate IsTileImage(f: string) {
    EndsWith(f, ".png") && !Contains(f, "Probabilities")
  }

  /** The filtered directory listing, in the order given. */
  function Listed(files: seq<string>): seq<string> {
    if files == [] then []
    else Listed(files[..|files| - 1]) + (if IsTileImage(files[|files| - 1]) then [files[|files| - 1]] else [])
  }

  /** `s.replace(".png", "")`: every occurrence removed, scanning left to right. */
  function StripPng(s: string): string
    decreases |s|
  {
    if |s| < 4 then s
    else if s[..4] == ".png" then StripPng(s[4..])
    else [s[0]] + StripPng(s[1..])
  }

  /** What the files of one tile id hold: the label image when its segmentation exists, whether a probability map exists, and the detector's rows. */
  datatype TileInput = TileInput(seg: Option<Mask>, hasProb: bool, blobs: BlobSource)

  /** `nuclei_data` for the regions `ids`, in order. */
  function NucleiOf(seg: Mask, ids: seq<int>, hasProb: bool, blobs: BlobSource): seq<Nucleus> {
    if ids == [] then []
    else NucleiOf(seg, ids[..|ids| - 1], hasProb, blobs) + [NucleusRecord(seg, ids[|ids| - 1], hasProb, blobs)]
  }

  /** `tile_json`. */
  function TileJson(id: string, seg: Mask, input: TileInput): TileRecord {
    TileRecord(id, Some("images/A1/rad51/" + id + ".png"), Some("images/A1/dapi/" + id + ".png"), None,
               NucleiOf(seg, RegionLabels(seg), input.hasProb, input.blobs))
  }

  /** `tile_index` after the listed files. */
  function IndexOf(listed: seq<string>): seq<string> {
    if listed == [] then []
    else IndexOf(listed[..|listed| - 1]) + [StripPng(listed[|listed| - 1])]
  }

  /** The records written for the listed files, in order; a tile without segmentation gets none. */
  function TileJsons(listed: seq<string>, inputs: string -> TileInput): seq<TileRecord> {
    if listed == [] then []
    else
      var id := StripPng(listed[|listed| - 1]);
      TileJsons(listed[..|listed| - 1], inputs) +
        (match inputs(id).seg case Some(seg) => [TileJson(id, seg, inputs(id))] case None => [])
  }

  /** The region loop: one record per region, in order. */
  method BuildNuclei(seg: Mask, ids: seq<int>, hasProb: bool, blobs: BlobSource) returns (nuclei: seq<Nucleus>)
    ensures nuclei == NucleiOf(seg, ids, hasProb, blobs)
  {
    nuclei := [];
    for i := 0 to |ids|
      invariant nuclei == NucleiOf(seg, ids[..i], hasProb, blobs)
    {
      assert ids[..i + 1][..i] == ids[..i];
      var n := BuildNucleus(seg, ids[i], hasProb, blobs);
      nuclei := nuclei + [n];
    }
    assert ids[..|ids|] == ids;
  }

  /** One tile's record. */
  method BuildTile(id: string, seg: Mask, input: TileInput) returns (t: TileRecord)
    ensures t == TileJson(id, seg, input)
  {
    var nuclei := BuildNuclei(seg, RegionLabels(seg), input.hasProb, input.blobs);
    t := TileRecord(id, Some("images/A1/rad51/" + id + ".png"), Some("images/A1/dapi/" + id + ".png"), None, nuclei);
  }

  /**
   * The tile loop: each listed file's id joins the index before the
   * segmentation check, and a record is produced only when the
   * segmentation exists.
   */
  method GenerateTiles(files: seq<string>, inputs: string -> TileInput) returns (index: seq<string>, tiles: seq<TileRecord>)
    ensures index == IndexOf(Listed(files))
    ensures tiles == TileJsons(Listed(files), inputs)
  {
    var listed := Listed(files);
    index := [];
    tiles := [];
    for i := 0 to |listed|
      invariant index == IndexOf(listed[..i])
      invariant tiles == TileJsons(listed[..i], inputs)
    {
      assert listed[..i + 1][..i] == listed[..i];
      var id := StripPng(listed[i]);
      index := index + [id];
      var input := inputs(id);
      if input.seg.None? {
        continue;
      }
      var t := BuildTile(id, input.seg.value, input);
      tiles := tiles + [t];
    }
    assert listed[..|listed|] == listed;
  }

  /** The listing keeps exactly the PNG files that are not probability maps. */
  lemma {:induction false} ListedSpec(files: seq<string>)
    ensures forall f :: f in Listed(files) <==> f in files && IsTileImage(f)
  {
    if files != [] {
      ListedSpec(files[..|files| - 1]);
      assert forall f :: f in files <==> f in files[..|files| - 1] || f == files[|files| - 1];
    }
  }

  /** The nuclei of a record are the `regionprops` regions' records, one per region, in label order. */
  lemma {:induction false} NucleiOfSpec(seg: Mask, ids: seq<int>, hasProb: bool, blobs: BlobSource)
    ensures |NucleiOf(seg, ids, hasProb, blobs)| == |ids|
    ensures forall i :: 0 <= i < |ids| ==> NucleiOf(seg, ids, hasProb, blobs)[i] == NucleusRecord(seg, ids[i], hasProb, blobs)
  {
    if ids != [] {
      NucleiOfSpec(seg, ids[..|ids| - 1], hasProb, blobs);
    }
  }

  /** The index names every listed tile, in order, one entry per file. */
  lemma {:induction false} IndexOfSpec(listed: seq<string>)
    ensures |IndexOf(listed)| == |listed|
    ensures forall i :: 0 <= i < |listed| ==> IndexOf(listed)[i] == StripPng(listed[i])
  {
    if listed != [] {
      IndexOfSpec(listed[..|listed| - 1]);
    }
  }

  /**
   * The records are those of the listed tiles whose segmentation exists,
   * each under its own id, which the index holds; so there are never more
   * records than index entries.
   */
  lemma {:induction false} TileJsonsSpec(listed: seq<string>, inputs: string -> TileInput)
    ensures |TileJsons(listed, inputs)| <= |IndexOf(listed)|
    ensures forall t :: t in TileJsons(listed, inputs) ==>
      && t.tileId in IndexOf(listed)
      && inputs(t.tileId).seg.Some?
      && t == TileJson(t.tileId, inputs(t.tileId).seg.value, inputs(t.tileId))
  {
    if listed != [] {
      var init := listed[..|listed| - 1];
      TileJsonsSpec(init, inputs);
      var a := TileJsons(init, inputs);
      var id := StripPng(listed[|listed| - 1]);
      assert IndexOf(listed) == IndexOf(init) + [id];
      forall t | t in TileJsons(listed, inputs)
        ensures t.tileId in IndexOf(listed)
      {
        if t in a {
          assert t.tileId in IndexOf(init);
        }
      }
    }
  }

  /** The records of the first `j` listed files come first, in the same order. */
  lemma {:induction false} TileJsonsPrefix(listed: seq<string>, inputs: string -> TileInput, j: nat)
    requires j <= |listed|
    ensures TileJsons(listed[..j], inputs) <= TileJsons(listed, inputs)
  {
    if j < |listed| {
      var init := listed[..|listed| - 1];
      assert init[..j] == listed[..j];
      TileJsonsPrefix(init, inputs, j);
    } else {
      assert listed[..j] == listed;
    }
  }

  /**
   * Every listed tile whose segmentation exists gets its record, right after
   * the records of the files listed before it.
   */
  lemma TileJsonsComplete(listed: seq<string>, inputs: string -> TileInput, i: nat)
    requires i < |listed| && inputs(StripPng(listed[i])).seg.Some?
    ensures var id := StripPng(listed[i]);
      var t := TileJson(id, inputs(id).seg.value, inputs(id));
      && TileJsons(listed[..i], inputs) + [t] <= TileJsons(listed, inputs)
      && t in TileJsons(listed, inputs)
  {
    var id := StripPng(listed[i]);
    var t := TileJson(id, inputs(id).seg.value, inputs(id));
    var front := listed[..i + 1];
    assert front[..i] == listed[..i] && front[i] == listed[i];
    TileJsonsLast(front, inputs);
    TileJsonsPrefix(listed, inputs, i + 1);
    var before := TileJsons(listed[..i], inputs);
    assert TileJsons(listed, inputs)[|before|] == (before + [t])[|before|];
  }

  /** The record of the last listed file, if it has a segmentation, comes after all the others. */
  lemma TileJsonsLast(listed: seq<string>, inputs: string -> TileInput)
    requires listed != [] && inputs(StripPng(listed[|listed| - 1])).seg.Some?
    ensures var id := StripPng(listed[|listed| - 1]);
      TileJsons(listed, inputs) == TileJsons(listed[..|listed| - 1], inputs) + [TileJson(id, inputs(id).seg.value, inputs(id))]
  {
  }

  /** A listed tile whose segmentation is missing stays in the index but gets no record. */
  lemma SkippedTileIsIndexedWithoutRecord(files: seq<string>, inputs: string -> TileInput, f: string)
    requires f in files && IsTileImage(f) && inputs(StripPng(f)).seg.None?
    ensures StripPng(f) in IndexOf(Listed(files))
    ensures forall t :: t in TileJsons(Listed(files), inputs) ==> t.tileId != StripPng(f)
  {
    ListedSpec(files);
    var listed := Listed(files);
    IndexOfSpec(listed);
    TileJsonsSpec(listed, inputs);
    var i :| 0 <= i < |listed| && listed[i] == f;
    assert IndexOf(listed)[i] == StripPng(f);
  }

  /** A record names its RAD51 and DAPI images by its id and never an H2AX image. */
  lemma TileJsonPaths(id: string, seg: Mask, input: TileInput)
    ensures var t := TileJson(id, seg, input);
      && ImagePath(t, "rad51") == Some("images/A1/rad51/" + id + ".png")
      && ImagePath(t, "dapi") == Some("images/A1/dapi/" + id + ".png")
      && ImagePath(t, "h2ax") == None
  {
  }

  /** Removing the extension of `stem + ".png"` gives the stem back when the stem holds no ".png" of its own. */
  lemma {:induction false} StripPngOfStem(stem: string)
    requires !Contains(stem, ".png")
    ensures StripPng(stem + ".png") == stem
    decreases |stem|
  {
    var s := stem + ".png";
    if stem == [] {
      assert s == ".png";
      assert s[4..] == [];
    } else {
      var rest := stem[1..];
      assert s[1..] == rest + ".png";
      StripPngOfStem(rest);
      assert stem == [stem[0]] + rest;
    }
  }

  /** A file name holding ".png" twice loses both: its id, and with it the image path of its record, name another file. */
  lemma StripPngRemovesEveryOccurrence()
    ensures StripPng("a.png.png") == "a"
    ensures "images/A1/rad51/" + StripPng("a.png.png") + ".png" != "images/A1/rad51/" + "a.png.png"
  {
    assert "a.png.png"[..4] == "a.pn";
    assert "a.png.png"[1..] == ".png.png";
    assert ".png.png"[..4] == ".png";
    assert ".png.png"[4..] == ".png";
    assert ".png"[..4] == ".png";
    assert ".png"[4..] == "";
    assert |"images/A1/rad51/" + "a" + ".png"| != |"images/A1/rad51/" + "a.png.png"|;
  }
}
