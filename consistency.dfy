/**
 * How the three programs fit together: the splitter's tiles are listed by the
 * generator under their own names and come back to the cells they were cut
 * from in the viewer's grid; the generator's records never name an H2AX
 * image; and every focus the generator stores for a nucleus is drawn in that
 * nucleus's annotated zoom view, so the view shows exactly the count that the
 * info table reports.
 */
module Consistency {
  import opened Wrappers
  import opened Records
  import opened Transform
  import opened Layout
  import opened Mosaic
  import opened Dashboard
  import opened FociDetection
  import opened LabelImage
  import opened JsonGeneration
  import opened Splitting

  lemma {:induction false} NoDotNoExtension(s: string)
    requires forall k :: 0 <= k < |s| ==> s[k] != '.'
    ensures !Contains(s, ".png")
    decreases |s|
  {
    if |s| >= 4 {
      assert s[..4][0] == s[0];
      NoDotNoExtension(s[1..]);
    }
  }

  /** A saved tile passes the listing filter, and its id is its name without the extension. */
  lemma SplitTilesAreListed(idx: nat)
    requires idx < SplitRows * SplitCols
    ensures IsTileImage(TileName(idx))
    ensures StripPng(TileName(idx)) == "tile_" + TwoDigits(idx + 1)
  {
    var stem := "tile_" + TwoDigits(idx + 1);
    assert TileName(idx) == stem + ".png";
    NoDotNoExtension(stem);
    StripPngOfStem(stem);
  }

  /**
   * Tile `idx` of the splitter is the `idx`-th tile of the viewer's grid: the
   * same column and row, and its cell's offsets are the tile's own position
   * in the composite scaled by `s`. With every tile decoding, in the order
   * their names sort, the mosaic reassembles the composite.
   */
  lemma SplitGridIsViewerGrid(idx: nat, h: nat, w: nat, s: real)
    requires idx < SplitRows * SplitCols
    ensures var t := TileAt(idx / SplitCols, idx % SplitCols, h, w);
      && Col(idx) == idx % SplitCols && Row(idx) == idx / SplitCols
      && OffsetX(idx, TileWidth(w), s) == t.colStart as real * s
      && OffsetY(idx, TileHeight(h), s) == t.rowStart as real * s
  {
  }

  /** Records without an H2AX image decode nothing in the H2AX display mode, so nothing is shown. */
  lemma {:induction false} NoH2axDecodes(tiles: seq<TileRecord>, load: Loader)
    requires load(None) == None
    requires forall k :: 0 <= k < |tiles| ==> tiles[k].h2axImage == None
    ensures DecodeAll(tiles, "h2ax", load) == []
  {
    if tiles != [] {
      NoH2axDecodes(tiles[..|tiles| - 1], load);
    }
  }

  /** The generator's records, shown in the H2AX display mode, decode nothing. */
  lemma GeneratedTilesHaveNoH2axView(listed: seq<string>, inputs: string -> TileInput, load: Loader)
    requires load(None) == None
    ensures DecodeAll(TileJsons(listed, inputs), "h2ax", load) == []
  {
    var tiles := TileJsons(listed, inputs);
    TileJsonsSpec(listed, inputs);
    forall k | 0 <= k < |tiles|
      ensures tiles[k].h2axImage == None
    {
      assert tiles[k] in tiles;
    }
    NoH2axDecodes(tiles, load);
  }

  /**
   * The generator's records name a Rad51 and a DAPI image but no H2AX one, so
   * a region of such a record draws nothing in either H2AX zoom view.
   */
  lemma GeneratedZoomChannels(id: string, seg: Mask, input: TileInput, r: Region, cfg: Config, annotated: bool)
    requires r.data == TileJson(id, seg, input)
    ensures ImagePath(r.data, "rad51").Some? && ImagePath(r.data, "dapi").Some?
    ensures ZoomViewOf(r, cfg, "h2ax", annotated).frame == None
  {
  }

  /** Foci lying in a mask all lie in its half-open raw box, whatever duplicates the list holds. */
  lemma FociInsideMaskBox(foci: seq<Coord>, coords: seq<Coord>)
    requires coords != [] && forall f :: f in foci ==> f in coords
    ensures BoundsOf(coords).Some?
    ensures forall k :: 0 <= k < |foci| ==> InHalfOpen(RawAsBox(BoundsOf(coords).value), foci[k])
  {
    BoundsOfIsTight(coords);
    var b := BoundsOf(coords).value;
    forall k | 0 <= k < |foci|
      ensures InHalfOpen(RawAsBox(b), foci[k])
    {
      assert foci[k] in foci;
      var i :| 0 <= i < |coords| && coords[i] == foci[k];
      HalfOpenIsInclusive(b, foci[k]);
    }
  }

  /**
   * For a nucleus the generator reported, drawn with the selected method and
   * threshold of an available detector and foci shown: the annotated zoom
   * view of a channel whose image the tile record names draws one marker per stored focus, the mosaic overlay draws one dot
   * per stored focus, and both numbers are the count the info table reports.
   */
  lemma GeneratedFociAllDrawn(seg: Mask, id: int, hasProb: bool, blobs: BlobSource, data: TileRecord,
                              offX: real, offY: real, dims: Dims, cfg: Config, channel: string)
    requires id in RegionLabels(seg) && cfg.showFoci
    requires ImagePath(data, channel).Some?
    requires (cfg.detector == Rad51 && cfg.threshold in Rad51Thresholds) ||
             (cfg.detector == Prob && hasProb && cfg.threshold in ProbThresholds)
    ensures var nuc := NucleusRecord(seg, id, hasProb, blobs);
      var r := NucleusRegion(data, nuc, nuc.pixelCoords.value, offX, offY, dims);
      && PanelOf(r, cfg).fociCount.Some?
      && ZoomViewOf(r, cfg, channel, true).frame.Some?
      && |ZoomViewOf(r, cfg, channel, true).frame.value.dots| == PanelOf(r, cfg).fociCount.value
      && CountDots(NucleusMarks(nuc, nuc.pixelCoords.value, offX, offY, dims, cfg)) == PanelOf(r, cfg).fociCount.value
  {
    var nuc := NucleusRecord(seg, id, hasProb, blobs);
    var coords := nuc.pixelCoords.value;
    var r := NucleusRegion(data, nuc, coords, offX, offY, dims);
    ReportedRegionGeometry(seg, id, hasProb, blobs);
    RecordFields(seg, id, hasProb, blobs, cfg.detector, cfg.threshold);
    var foci := nuc.fociCoords[FociKey(cfg)];
    PanelReportsSelectedCount(r, cfg);
    ZoomFrameIsMaskBox(r, coords, cfg, channel, true);
    FociInsideMaskBox(foci, coords);
    var tb := RawAsBox(BoundsOf(coords).value);
    ZoomFociKeepsAll(foci, tb, ZoomFactor);
    assert ZoomViewOf(r, cfg, channel, true).frame.value.dots == ZoomDots(foci, tb, FociColor(cfg.detector));
    NucleusDots(nuc, coords, offX, offY, dims, cfg);
  }
}
