/**
 * The compositor of script.js (`renderMergedCanvas`) stated as functions:
 * which tiles decode, where each is placed, the overlay marks drawn for each
 * nucleus, the region index built beside them, and the first-match hit test
 * over it (`getNucleusAtPosition`). The imperative render that these
 * functions specify is `Viewer.MosaicViewer.Render`.
 */
module Mosaic {
  import opened Wrappers
  import opened Records
  import opened Outline
  import opened Transform
  import opened Layout

  /** `canvasScale`, the downscale factor of the overview. */
  const CanvasScale: real := 0.4

  /** The pixel size of a decoded image. */
  datatype Dims = Dims(width: nat, height: nat)

  /** The selection and toggles the render reads. */
  datatype Config = Config(
    detector: string,
    threshold: string,
    displayMode: string,
    showFoci: bool,
    showLabels: bool,
    showOutlines: bool)

  /** The settings the page starts with. */
  const InitialConfig: Config := Config("rad51", "0.2", "rad51", true, true, true)

  datatype Color = Lime | Yellow | Cyan | Magenta

  /** A recorded drawing call on a canvas. */
  datatype Mark =
    | TileImage(tileId: string, x: real, y: real, width: real, height: real)
    | Pixel(x: real, y: real, color: Color)
    | Label(text: int, x: real, y: real, color: Color)
    | Dot(x: real, y: real, radius: real, color: Color)

  /**
   * One entry of `nucleiRegions`: the nucleus, its tile, its box in mosaic
   * space (`None` for an empty mask, whose box is infinite in the source and
   * is never hit), the tile's offset, the raw tile size and the tile's record.
   */
  datatype Region = Region(tileId: string, nuc: Nucleus, box: Option<Box>, offX: real, offY: real, tileW: nat, tileH: nat, data: TileRecord)

  /** A tile whose channel image decoded, with the image's size. */
  datatype Decoded = Decoded(record: TileRecord, dims: Dims)

  /** The finished overview: its size and everything drawn on it, in order. */
  datatype Surface = Surface(width: real, height: real, marks: seq<Mark>)

  /** Image decoding, outside the model: the size of the image at a path, or `None` when it fails (an absent path included). */
  type Loader = Option<string> -> Option<Dims>

  /** `results.filter(r => r.img)`: the tiles whose image for `mode` decoded, in list order. */
  function DecodeAll(tiles: seq<TileRecord>, mode: string, load: Loader): (r: seq<Decoded>)
    ensures |r| <= |tiles|
  {
    if tiles == [] then []
    else
      var last := tiles[|tiles| - 1];
      DecodeAll(tiles[..|tiles| - 1], mode, load) +
        (match load(ImagePath(last, mode)) case Some(d) => [Decoded(last, d)] case None => [])
  }

  /** The key the overlays and the panel read for the selected method and threshold. */
  function FociKey(cfg: Config): string { CoordsKey(cfg.detector, cfg.threshold) }
  function FociCountKey(cfg: Config): string { CountKey(cfg.detector, cfg.threshold) }

  function FociColor(detector: string): Color {
    if detector == "rad51" then Cyan else Magenta
  }

  function MosaicBoxOf(b: Option<RawBox>, offX: real, offY: real): Option<Box> {
    match b
    case None => None
    case Some(r) => Some(MosaicBox(r, offX, offY, CanvasScale))
  }

  /** The region pushed for a nucleus whose `pixel_coords` is the array `coords`. */
  function NucleusRegion(data: TileRecord, nuc: Nucleus, coords: seq<Coord>, offX: real, offY: real, dims: Dims): Region {
    Region(data.tileId, nuc, MosaicBoxOf(BoundsOf(coords), offX, offY), offX, offY, dims.width, dims.height, data)
  }

  /** The regions of one tile's nuclei, in nucleus order; nuclei without a coordinate array are skipped. */
  function NucleiRegions(data: TileRecord, nuclei: seq<Nucleus>, offX: real, offY: real, dims: Dims): seq<Region> {
    if nuclei == [] then []
    else
      var last := nuclei[|nuclei| - 1];
      NucleiRegions(data, nuclei[..|nuclei| - 1], offX, offY, dims) +
        (match last.pixelCoords case None => [] case Some(c) => [NucleusRegion(data, last, c, offX, offY, dims)])
  }

  /** The regions of the k-th decoded tile, placed at grid cell k. */
  function TileRegions(d: Decoded, k: nat, dims: Dims): seq<Region> {
    NucleiRegions(d.record, d.record.nuclei, OffsetX(k, dims.width, CanvasScale), OffsetY(k, dims.height, CanvasScale), dims)
  }

  /** The whole region index: tile order, then nucleus order. */
  function RegionsOf(valid: seq<Decoded>, dims: Dims): seq<Region> {
    if valid == [] then []
    else RegionsOf(valid[..|valid| - 1], dims) + TileRegions(valid[|valid| - 1], |valid| - 1, dims)
  }

  /** One 1x1 outline mark per boundary pixel, at its mosaic position. */
  function OutlineMarks(edges: seq<Coord>, offX: real, offY: real): seq<Mark> {
    seq(|edges|, i requires 0 <= i < |edges| => Pixel(offX + edges[i].1 as real * CanvasScale, offY + edges[i].0 as real * CanvasScale, Lime))
  }

  /** One radius-2 dot per focus, at its mosaic position. */
  function FociMarks(foci: seq<Coord>, offX: real, offY: real, color: Color): seq<Mark> {
    seq(|foci|, i requires 0 <= i < |foci| => Dot(offX + foci[i].1 as real * CanvasScale, offY + foci[i].0 as real * CanvasScale, 2.0, color))
  }

  function OutlinePart(coords: seq<Coord>, offX: real, offY: real, dims: Dims, cfg: Config): seq<Mark> {
    if cfg.showOutlines then OutlineMarks(EdgePixels(coords, dims.width, dims.height), offX, offY) else []
  }

  function LabelPart(nuc: Nucleus, offX: real, offY: real, cfg: Config): seq<Mark> {
    if cfg.showLabels && nuc.centroid.Some?
    then [Label(nuc.regionId, offX + nuc.centroid.value.1 * CanvasScale, offY + nuc.centroid.value.0 * CanvasScale, Yellow)]
    else []
  }

  function FociPart(nuc: Nucleus, offX: real, offY: real, cfg: Config): seq<Mark> {
    if cfg.showFoci && FociKey(cfg) in nuc.fociCoords
    then FociMarks(nuc.fociCoords[FociKey(cfg)], offX, offY, FociColor(cfg.detector))
    else []
  }

  /** The overlays of one nucleus: outline if enabled, label if enabled and a centroid exists, foci if enabled and the key holds an array. */
  function NucleusMarks(nuc: Nucleus, coords: seq<Coord>, offX: real, offY: real, dims: Dims, cfg: Config): seq<Mark> {
    OutlinePart(coords, offX, offY, dims, cfg) + LabelPart(nuc, offX, offY, cfg) + FociPart(nuc, offX, offY, cfg)
  }

  function NucleiMarks(nuclei: seq<Nucleus>, offX: real, offY: real, dims: Dims, cfg: Config): seq<Mark> {
    if nuclei == [] then []
    else
      var last := nuclei[|nuclei| - 1];
      NucleiMarks(nuclei[..|nuclei| - 1], offX, offY, dims, cfg) +
        (match last.pixelCoords case None => [] case Some(c) => NucleusMarks(last, c, offX, offY, dims, cfg))
  }

  /** The k-th decoded tile: its image scaled into cell k, then its nuclei's overlays. */
  function TileMarks(d: Decoded, k: nat, dims: Dims, cfg: Config): seq<Mark> {
    var offX, offY := OffsetX(k, dims.width, CanvasScale), OffsetY(k, dims.height, CanvasScale);
    [TileImage(d.record.tileId, offX, offY, dims.width as real * CanvasScale, dims.height as real * CanvasScale)]
      + NucleiMarks(d.record.nuclei, offX, offY, dims, cfg)
  }

  function MarksOf(valid: seq<Decoded>, dims: Dims, cfg: Config): seq<Mark> {
    if valid == [] then []
    else MarksOf(valid[..|valid| - 1], dims, cfg) + TileMarks(valid[|valid| - 1], |valid| - 1, dims, cfg)
  }

  /** The closed-box test of `getNucleusAtPosition` (`<=` on both edges); a region without a box is never hit. */
  predicate Hits(r: Region, px: real, py: real) {
    match r.box
    case None => false
    case Some(b) => b.x <= px <= b.x + b.width && b.y <= py <= b.y + b.height
  }

  /** The first region in insertion order whose box contains the point. */
  function FirstHit(regions: seq<Region>, px: real, py: real): Option<Region> {
    if regions == [] then None
    else if Hits(regions[0], px, py) then Some(regions[0])
    else FirstHit(regions[1..], px, py)
  }

  /** `FirstHit` is the first match: nothing is found iff nothing contains the point, else the earliest containing region is. */
  lemma {:induction false} FirstHitIsFirstMatch(regions: seq<Region>, px: real, py: real)
    ensures FirstHit(regions, px, py).None? <==> forall i :: 0 <= i < |regions| ==> !Hits(regions[i], px, py)
    ensures FirstHit(regions, px, py).Some? ==>
      exists i :: 0 <= i < |regions| && regions[i] == FirstHit(regions, px, py).value && Hits(regions[i], px, py)
        && forall j :: 0 <= j < i ==> !Hits(regions[j], px, py)
  {
    if regions != [] && !Hits(regions[0], px, py) {
      var rest := regions[1..];
      FirstHitIsFirstMatch(rest, px, py);
      assert forall i :: 1 <= i < |regions| ==> regions[i] == rest[i - 1];
      if FirstHit(rest, px, py).Some? {
        var i :| 0 <= i < |rest| && rest[i] == FirstHit(rest, px, py).value && Hits(rest[i], px, py)
          && forall j :: 0 <= j < i ==> !Hits(rest[j], px, py);
        assert forall j :: 0 <= j < i + 1 ==> !Hits(regions[j], px, py) by {
          forall j | 0 <= j < i + 1 ensures !Hits(regions[j], px, py) {
            if j > 0 { assert regions[j] == rest[j - 1]; }
          }
        }
      }
    }
  }

  /** With two overlapping boxes inserted A then B, a point in both finds A. */
  lemma OverlapFindsEarlier(a: Region, b: Region, px: real, py: real)
    requires Hits(a, px, py) && Hits(b, px, py)
    ensures FirstHit([a, b], px, py) == Some(a)
  {
  }

  lemma ScaledBetween(lo: int, v: int, hi: int, off: real, s: real)
    requires lo <= v <= hi && s > 0.0
    ensures off + lo as real * s <= off + v as real * s <= off + lo as real * s + (hi - lo + 1) as real * s
  {
    ScaleMonotone(lo, v, s);
    ScaleMonotone(v, hi + 1, s);
    assert lo as real * s + (hi - lo + 1) as real * s == (hi + 1) as real * s;
  }

  lemma HitsWithin(r: Region, b: RawBox, offX: real, offY: real, x: int, y: int)
    requires r.box == Some(MosaicBox(b, offX, offY, CanvasScale))
    requires b.minX <= x <= b.maxX && b.minY <= y <= b.maxY
    ensures Hits(r, offX + x as real * CanvasScale, offY + y as real * CanvasScale)
  {
    ScaledBetween(b.minX, x, b.maxX, offX, CanvasScale);
    ScaledBetween(b.minY, y, b.maxY, offY, CanvasScale);
  }

  /** Every pixel of a mask lies in the region box built from a raw box that encloses the mask. */
  lemma MaskPixelHitsRegion(r: Region, b: RawBox, coords: seq<Coord>, k: nat)
    requires k < |coords|
    requires r.box == Some(MosaicBox(b, r.offX, r.offY, CanvasScale)) && Encloses(b, coords)
    ensures Hits(r, r.offX + coords[k].1 as real * CanvasScale, r.offY + coords[k].0 as real * CanvasScale)
  {
    HitsWithin(r, b, r.offX, r.offY, coords[k].1, coords[k].0);
  }

  lemma BoxOfMask(r: Region, coords: seq<Coord>)
    requires coords != [] && r.box == MosaicBoxOf(BoundsOf(coords), r.offX, r.offY)
    ensures exists b :: r.box == Some(MosaicBox(b, r.offX, r.offY, CanvasScale)) && Encloses(b, coords)
  {
    BoundsOfIsTight(coords);
    assert r.box == Some(MosaicBox(BoundsOf(coords).value, r.offX, r.offY, CanvasScale));
  }

  lemma RegionContainsPixel(r: Region, coords: seq<Coord>, k: nat)
    requires k < |coords|
    requires r.box == MosaicBoxOf(BoundsOf(coords), r.offX, r.offY)
    ensures Hits(r, r.offX + coords[k].1 as real * CanvasScale, r.offY + coords[k].0 as real * CanvasScale)
  {
    BoxOfMask(r, coords);
    var b :| r.box == Some(MosaicBox(b, r.offX, r.offY, CanvasScale)) && Encloses(b, coords);
    MaskPixelHitsRegion(r, b, coords, k);
  }

  /** Every region of a tile contains, in mosaic space, every pixel of its own nucleus's mask. */
  lemma RegionsContainTheirPixels(data: TileRecord, nuclei: seq<Nucleus>, offX: real, offY: real, dims: Dims)
    ensures forall r, k ::
      r in NucleiRegions(data, nuclei, offX, offY, dims) && r.nuc.pixelCoords.Some? && 0 <= k < |r.nuc.pixelCoords.value|
      ==> Hits(r, r.offX + r.nuc.pixelCoords.value[k].1 as real * CanvasScale, r.offY + r.nuc.pixelCoords.value[k].0 as real * CanvasScale)
  {
    forall r, k | r in NucleiRegions(data, nuclei, offX, offY, dims) && r.nuc.pixelCoords.Some?
      && 0 <= k < |r.nuc.pixelCoords.value|
      ensures Hits(r, r.offX + r.nuc.pixelCoords.value[k].1 as real * CanvasScale, r.offY + r.nuc.pixelCoords.value[k].0 as real * CanvasScale)
    {
      RegionBuiltFromMask(r, data, nuclei, offX, offY, dims);
      RegionContainsPixel(r, r.nuc.pixelCoords.value, k);
    }
  }

  lemma RegionBuiltFromMask(r: Region, data: TileRecord, nuclei: seq<Nucleus>, offX: real, offY: real, dims: Dims)
    requires r in NucleiRegions(data, nuclei, offX, offY, dims)
    ensures r.nuc.pixelCoords.Some? && r.box == MosaicBoxOf(BoundsOf(r.nuc.pixelCoords.value), r.offX, r.offY)
  {
    NucleiRegionsSpec(data, nuclei, offX, offY, dims);
  }

  /** Number of nuclei whose `pixel_coords` is an array. */
  function WithCoords(nuclei: seq<Nucleus>): nat {
    if nuclei == [] then 0
    else WithCoords(nuclei[..|nuclei| - 1]) + (if nuclei[|nuclei| - 1].pixelCoords.Some? then 1 else 0)
  }

  function TotalWithCoords(valid: seq<Decoded>): nat {
    if valid == [] then 0
    else TotalWithCoords(valid[..|valid| - 1]) + WithCoords(valid[|valid| - 1].record.nuclei)
  }

  /** Exactly one region per nucleus with a coordinate array, each carrying that nucleus and its tile's identity and offset. */
  lemma {:induction false} NucleiRegionsSpec(data: TileRecord, nuclei: seq<Nucleus>, offX: real, offY: real, dims: Dims)
    ensures |NucleiRegions(data, nuclei, offX, offY, dims)| == WithCoords(nuclei)
    ensures forall r :: r in NucleiRegions(data, nuclei, offX, offY, dims) ==>
      r.tileId == data.tileId && r.data == data && r.offX == offX && r.offY == offY && r.tileW == dims.width && r.tileH == dims.height
      && r.nuc in nuclei && r.nuc.pixelCoords.Some?
      && r.box == MosaicBoxOf(BoundsOf(r.nuc.pixelCoords.value), offX, offY)
  {
    if nuclei != [] {
      NucleiRegionsSpec(data, nuclei[..|nuclei| - 1], offX, offY, dims);
    }
  }

  /** The regions of the first `j` nuclei come first, in the same order. */
  lemma {:induction false} NucleiRegionsPrefix(data: TileRecord, nuclei: seq<Nucleus>, offX: real, offY: real, dims: Dims, j: nat)
    requires j <= |nuclei|
    ensures NucleiRegions(data, nuclei[..j], offX, offY, dims) <= NucleiRegions(data, nuclei, offX, offY, dims)
  {
    if j < |nuclei| {
      var init := nuclei[..|nuclei| - 1];
      assert init[..j] == nuclei[..j];
      NucleiRegionsPrefix(data, init, offX, offY, dims, j);
    } else {
      assert nuclei[..j] == nuclei;
    }
  }

  /**
   * Every nucleus with a coordinate array has its region in the list, right
   * after the regions of the nuclei before it.
   */
  lemma NucleiRegionsComplete(data: TileRecord, nuclei: seq<Nucleus>, offX: real, offY: real, dims: Dims, j: nat)
    requires j < |nuclei| && nuclei[j].pixelCoords.Some?
    ensures var r := NucleusRegion(data, nuclei[j], nuclei[j].pixelCoords.value, offX, offY, dims);
      && NucleiRegions(data, nuclei[..j], offX, offY, dims) + [r] <= NucleiRegions(data, nuclei, offX, offY, dims)
      && r in NucleiRegions(data, nuclei, offX, offY, dims)
  {
    var r := NucleusRegion(data, nuclei[j], nuclei[j].pixelCoords.value, offX, offY, dims);
    assert nuclei[..j + 1][..j] == nuclei[..j];
    assert NucleiRegions(data, nuclei[..j + 1], offX, offY, dims) == NucleiRegions(data, nuclei[..j], offX, offY, dims) + [r];
    NucleiRegionsPrefix(data, nuclei, offX, offY, dims, j + 1);
    var all := NucleiRegions(data, nuclei, offX, offY, dims);
    assert all[|NucleiRegions(data, nuclei[..j], offX, offY, dims)|] == r;
  }

  /** Region `r` belongs to the k-th decoded tile: its identifier, its cell's offset, one of its nuclei with a coordinate array. */
  predicate PlacedAt(r: Region, valid: seq<Decoded>, k: nat, dims: Dims) {
    && k < |valid|
    && r.tileId == valid[k].record.tileId && r.data == valid[k].record
    && r.offX == OffsetX(k, dims.width, CanvasScale) && r.offY == OffsetY(k, dims.height, CanvasScale)
    && r.nuc in valid[k].record.nuclei && r.nuc.pixelCoords.Some?
  }

  /**
   * The region index counts every nucleus with a coordinate array of every
   * decoded tile, and each region sits in the cell of the decoded tile it
   * comes from.
   */
  lemma {:induction false} RegionsOfSpec(valid: seq<Decoded>, dims: Dims)
    ensures |RegionsOf(valid, dims)| == TotalWithCoords(valid)
    ensures forall r :: r in RegionsOf(valid, dims) ==>
      exists k: nat :: PlacedAt(r, valid, k, dims)
  {
    if valid != [] {
      var n := |valid| - 1;
      var init := valid[..n];
      RegionsOfSpec(init, dims);
      var d := valid[n];
      NucleiRegionsSpec(d.record, d.record.nuclei, OffsetX(n, dims.width, CanvasScale), OffsetY(n, dims.height, CanvasScale), dims);
      forall r | r in RegionsOf(valid, dims)
        ensures exists k: nat :: PlacedAt(r, valid, k, dims)
      {
        if r in RegionsOf(init, dims) {
          var k: nat :| PlacedAt(r, init, k, dims);
          assert init[k] == valid[k];
          assert PlacedAt(r, valid, k, dims);
        } else {
          assert r in TileRegions(d, n, dims);
          assert PlacedAt(r, valid, n, dims);
        }
      }
    }
  }

  /** The regions of the first `k` decoded tiles come first, in the same order. */
  lemma {:induction false} RegionsOfPrefix(valid: seq<Decoded>, dims: Dims, k: nat)
    requires k <= |valid|
    ensures RegionsOf(valid[..k], dims) <= RegionsOf(valid, dims)
  {
    if k < |valid| {
      var init := valid[..|valid| - 1];
      assert init[..k] == valid[..k];
      RegionsOfPrefix(init, dims, k);
    } else {
      assert valid[..k] == valid;
    }
  }

  /**
   * Tile order, then nucleus order: the region of nucleus `j` of the k-th
   * decoded tile is in the index, preceded by every region of the earlier
   * tiles and then by those of the earlier nuclei of its own tile.
   */
  lemma RegionsOfComplete(valid: seq<Decoded>, dims: Dims, k: nat, j: nat)
    requires k < |valid| && j < |valid[k].record.nuclei| && valid[k].record.nuclei[j].pixelCoords.Some?
    ensures var d := valid[k];
      var offX, offY := OffsetX(k, dims.width, CanvasScale), OffsetY(k, dims.height, CanvasScale);
      var nuc := d.record.nuclei[j];
      RegionsOf(valid[..k], dims) + NucleiRegions(d.record, d.record.nuclei[..j], offX, offY, dims)
        + [NucleusRegion(d.record, nuc, nuc.pixelCoords.value, offX, offY, dims)]
        <= RegionsOf(valid, dims)
  {
    var d := valid[k];
    var offX, offY := OffsetX(k, dims.width, CanvasScale), OffsetY(k, dims.height, CanvasScale);
    NucleiRegionsComplete(d.record, d.record.nuclei, offX, offY, dims, j);
    assert valid[..k + 1][..k] == valid[..k];
    assert RegionsOf(valid[..k + 1], dims) == RegionsOf(valid[..k], dims) + TileRegions(d, k, dims);
    RegionsOfPrefix(valid, dims, k + 1);
  }

  /** A hit found in a prefix of the region list is the hit of the whole list. */
  lemma {:induction false} FirstHitPrefix(a: seq<Region>, b: seq<Region>, px: real, py: real)
    requires a <= b && FirstHit(a, px, py).Some?
    ensures FirstHit(b, px, py) == FirstHit(a, px, py)
  {
    if !Hits(a[0], px, py) {
      assert a[1..] <= b[1..];
      FirstHitPrefix(a[1..], b[1..], px, py);
    }
  }

  /**
   * A point inside the box of nucleus `j` of the k-th decoded tile selects
   * that region or one inserted before it: never one of a later nucleus or
   * a later tile.
   */
  lemma EarlierRegionWins(valid: seq<Decoded>, dims: Dims, k: nat, j: nat, px: real, py: real)
    requires k < |valid| && j < |valid[k].record.nuclei| && valid[k].record.nuclei[j].pixelCoords.Some?
    requires var d := valid[k]; var nuc := d.record.nuclei[j];
      Hits(NucleusRegion(d.record, nuc, nuc.pixelCoords.value, OffsetX(k, dims.width, CanvasScale), OffsetY(k, dims.height, CanvasScale), dims), px, py)
    ensures FirstHit(RegionsOf(valid, dims), px, py).Some?
    ensures var d := valid[k];
      var offX, offY := OffsetX(k, dims.width, CanvasScale), OffsetY(k, dims.height, CanvasScale);
      var nuc := d.record.nuclei[j];
      FirstHit(RegionsOf(valid, dims), px, py).value in
        RegionsOf(valid[..k], dims) + NucleiRegions(d.record, d.record.nuclei[..j], offX, offY, dims)
          + [NucleusRegion(d.record, nuc, nuc.pixelCoords.value, offX, offY, dims)]
  {
    var d := valid[k];
    var offX, offY := OffsetX(k, dims.width, CanvasScale), OffsetY(k, dims.height, CanvasScale);
    var nuc := d.record.nuclei[j];
    var r := NucleusRegion(d.record, nuc, nuc.pixelCoords.value, offX, offY, dims);
    var p := RegionsOf(valid[..k], dims) + NucleiRegions(d.record, d.record.nuclei[..j], offX, offY, dims) + [r];
    RegionsOfComplete(valid, dims, k, j);
    FirstHitIsFirstMatch(p, px, py);
    assert p[|p| - 1] == r;
    FirstHitPrefix(p, RegionsOf(valid, dims), px, py);
  }

  /** A tile is among the decoded ones iff it is in the list and the image for the display mode loaded. */
  lemma {:induction false} DecodeAllMembership(tiles: seq<TileRecord>, mode: string, load: Loader, d: Decoded)
    ensures d in DecodeAll(tiles, mode, load) <==> d.record in tiles && load(ImagePath(d.record, mode)) == Some(d.dims)
  {
    if tiles != [] {
      DecodeAllMembership(tiles[..|tiles| - 1], mode, load, d);
      assert tiles == tiles[..|tiles| - 1] + [tiles[|tiles| - 1]];
    }
  }

  /** Every decoded tile's cell lies inside the canvas, which is sized for the whole list. */
  lemma DecodedCellsInsideCanvas(tiles: seq<TileRecord>, mode: string, load: Loader, dims: Dims, k: nat)
    requires k < |DecodeAll(tiles, mode, load)|
    ensures var w, h, s := dims.width, dims.height, CanvasScale;
      && OffsetX(k, w, s) >= 0.0 && OffsetY(k, h, s) >= 0.0
      && OffsetX(k, w, s) + w as real * s <= CanvasWidth(w, s)
      && OffsetY(k, h, s) + h as real * s <= CanvasHeight(|tiles|, h, s)
  {
    CellInsideCanvas(k, |tiles|, dims.width, dims.height, CanvasScale);
  }

  /** Fail-soft: a tile whose image does not decode contributes no region (its identifier being its own). */
  lemma FailedTileHasNoRegion(tiles: seq<TileRecord>, mode: string, load: Loader, dims: Dims, t: TileRecord)
    requires t in tiles && load(ImagePath(t, mode)).None?
    requires forall u :: u in tiles && u.tileId == t.tileId ==> u == t
    ensures forall r :: r in RegionsOf(DecodeAll(tiles, mode, load), dims) ==> r.tileId != t.tileId
  {
    var valid := DecodeAll(tiles, mode, load);
    RegionsOfSpec(valid, dims);
    forall r | r in RegionsOf(valid, dims) ensures r.tileId != t.tileId {
      var k: nat :| PlacedAt(r, valid, k, dims);
      DecodeAllMembership(tiles, mode, load, valid[k]);
    }
  }

  /** Appending a tile appends its decoding, if any, to the decoded list. */
  lemma DecodeAllSnoc(tiles: seq<TileRecord>, t: TileRecord, mode: string, load: Loader)
    ensures DecodeAll(tiles + [t], mode, load) ==
      DecodeAll(tiles, mode, load) + (match load(ImagePath(t, mode)) case Some(d) => [Decoded(t, d)] case None => [])
  {
    assert (tiles + [t])[..|tiles|] == tiles;
  }

  /**
   * The grid index counts only decoded tiles: when the third of five tiles
   * fails, the fourth and fifth move into cells 2 and 3.
   */
  lemma FailedTileShiftsLaterTiles(t1: TileRecord, t2: TileRecord, t3: TileRecord, t4: TileRecord, t5: TileRecord,
                                   mode: string, load: Loader, dims: Dims)
    requires load(ImagePath(t3, mode)).None?
    requires load(ImagePath(t1, mode)).Some? && load(ImagePath(t2, mode)).Some?
    requires load(ImagePath(t4, mode)).Some? && load(ImagePath(t5, mode)).Some?
    ensures var valid := DecodeAll([t1, t2, t3, t4, t5], mode, load);
      && |valid| == 4
      && valid[2].record == t4 && valid[3].record == t5
      && Col(2) == 2 && Row(2) == 0 && Col(3) == 3 && Row(3) == 0
  {
    var d1, d2 := Decoded(t1, load(ImagePath(t1, mode)).value), Decoded(t2, load(ImagePath(t2, mode)).value);
    var d4, d5 := Decoded(t4, load(ImagePath(t4, mode)).value), Decoded(t5, load(ImagePath(t5, mode)).value);
    DecodeAllSnoc([], t1, mode, load);
    assert [] + [t1] == [t1];
    DecodeAllSnoc([t1], t2, mode, load);
    assert [t1] + [t2] == [t1, t2];
    DecodeAllSnoc([t1, t2], t3, mode, load);
    assert [t1, t2] + [t3] == [t1, t2, t3];
    DecodeAllSnoc([t1, t2, t3], t4, mode, load);
    assert [t1, t2, t3] + [t4] == [t1, t2, t3, t4];
    DecodeAllSnoc([t1, t2, t3, t4], t5, mode, load);
    assert [t1, t2, t3, t4] + [t5] == [t1, t2, t3, t4, t5];
    assert DecodeAll([t1, t2, t3, t4, t5], mode, load) == [d1, d2, d4, d5];
  }

  /** A mark that is a foci dot. */
  function CountDots(marks: seq<Mark>): nat {
    if marks == [] then 0
    else CountDots(marks[..|marks| - 1]) + (if marks[|marks| - 1].Dot? then 1 else 0)
  }

  lemma {:induction false} CountDotsAppend(a: seq<Mark>, b: seq<Mark>)
    ensures CountDots(a + b) == CountDots(a) + CountDots(b)
    decreases |b|
  {
    if b == [] {
      assert a + b == a;
    } else {
      assert (a + b)[..|a + b| - 1] == a + b[..|b| - 1];
      assert (a + b)[|a + b| - 1] == b[|b| - 1];
      CountDotsAppend(a, b[..|b| - 1]);
    }
  }

  lemma {:induction false} CountDotsUniform(marks: seq<Mark>)
    ensures (forall i :: 0 <= i < |marks| ==> marks[i].Dot?) ==> CountDots(marks) == |marks|
    ensures (forall i :: 0 <= i < |marks| ==> !marks[i].Dot?) ==> CountDots(marks) == 0
  {
    if marks != [] {
      CountDotsUniform(marks[..|marks| - 1]);
    }
  }

  lemma PartsDots(nuc: Nucleus, coords: seq<Coord>, offX: real, offY: real, dims: Dims, cfg: Config)
    ensures CountDots(OutlinePart(coords, offX, offY, dims, cfg)) == 0
    ensures CountDots(LabelPart(nuc, offX, offY, cfg)) == 0
    ensures CountDots(FociPart(nuc, offX, offY, cfg)) ==
      if cfg.showFoci && FociKey(cfg) in nuc.fociCoords then |nuc.fociCoords[FociKey(cfg)]| else 0
  {
    CountDotsUniform(OutlinePart(coords, offX, offY, dims, cfg));
    CountDotsUniform(LabelPart(nuc, offX, offY, cfg));
    CountDotsUniform(FociPart(nuc, offX, offY, cfg));
  }

  /**
   * Foci key consistency: a nucleus gets exactly one dot per entry of the
   * array under `"{method}_coords_th{th}"` for the selected method and
   * threshold, and none when foci are off or the key is absent.
   * `Dashboard.SamePixelInBothViews` states where each dot is drawn.
   */
  lemma NucleusDots(nuc: Nucleus, coords: seq<Coord>, offX: real, offY: real, dims: Dims, cfg: Config)
    ensures CountDots(NucleusMarks(nuc, coords, offX, offY, dims, cfg)) ==
      if cfg.showFoci && CoordsKey(cfg.detector, cfg.threshold) in nuc.fociCoords
      then |nuc.fociCoords[CoordsKey(cfg.detector, cfg.threshold)]| else 0
  {
    var outline, tag, dots := OutlinePart(coords, offX, offY, dims, cfg), LabelPart(nuc, offX, offY, cfg), FociPart(nuc, offX, offY, cfg);
    CountDotsAppend(outline + tag, dots);
    CountDotsAppend(outline, tag);
    PartsDots(nuc, coords, offX, offY, dims, cfg);
  }
}
