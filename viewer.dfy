/**
 * The page state of script.js as an object: the region index, the locked
 * region, the panel on display, the selection and toggles, and the current
 * tile list. Each listener of the page is a method whose new state is stated
 * through the functions of `Mosaic` and `Dashboard`.
 */
module Viewer {
  import opened Wrappers
  import opened Records
  import opened Outline
  import opened Transform
  import opened Layout
  import opened Mosaic
  import opened Dashboard

  class MosaicViewer {
    /** `nucleiRegions`. */
    var regions: seq<Region>
    /** `lockedNucleus`. */
    var locked: Option<Region>
    /** The contents of the info table and the six zoom canvases; `None` when cleared. */
    var shown: Option<Panel>
    /** `selectedMethod`, `selectedThreshold`, `displayMode` and the three toggles. */
    var config: Config
    /** `currentTileList`, each entry joined with its cached record. */
    var tiles: seq<TileRecord>

    function State(): Dash
      reads this
    {
      Dash(locked, shown)
    }

    predicate Valid()
      reads this
    {
      Coherent(State())
    }

    /**
     * What one render of `tiles` leaves behind, given the index before it.
     * Here `surface == None` means the grid was emptied and nothing is shown;
     * from `Redraw` and the methods built on it, with an empty tile list,
     * `None` means no render ran and the previous mosaic stays on screen.
     */
    predicate Rendered(list: seq<TileRecord>, load: Loader, surface: Option<Surface>, before: seq<Region>)
      reads this
    {
      var valid := DecodeAll(list, config.displayMode, load);
      if valid == [] then surface.None? && regions == before
      else
        var dims := valid[0].dims;
        && surface == Some(Surface(CanvasWidth(dims.width, CanvasScale), CanvasHeight(|list|, dims.height, CanvasScale),
                                   MarksOf(valid, dims, config)))
        && regions == RegionsOf(valid, dims)
    }

    constructor()
      ensures regions == [] && tiles == [] && State() == Dash(None, None) && config == InitialConfig
      ensures Valid()
    {
      regions := [];
      locked := None;
      shown := None;
      config := InitialConfig;
      tiles := [];
    }

    /** `getNucleusAtPosition`: scan the index in insertion order and return the first region whose box contains the point. */
    method NucleusAt(px: real, py: real) returns (hit: Option<Region>)
      ensures hit == FirstHit(regions, px, py)
    {
      var i := 0;
      while i < |regions|
        invariant 0 <= i <= |regions|
        invariant FirstHit(regions[i..], px, py) == FirstHit(regions, px, py)
      {
        var box := regions[i].box;
        if box.Some? && px >= box.value.x && px <= box.value.x + box.value.width
           && py >= box.value.y && py <= box.value.y + box.value.height {
          return Some(regions[i]);
        }
        assert regions[i..][1..] == regions[i + 1..];
        i := i + 1;
      }
      return None;
    }

    /** The hover listener: ignored while locked, otherwise shows or clears the panel. */
    method PointerMove(px: real, py: real)
      requires Valid()
      modifies this`shown
      ensures State() == Step(old(State()), Move(px, py), regions, config)
      ensures Valid()
    {
      if locked.Some? {
        return;
      }
      var hovered := NucleusAt(px, py);
      if hovered.Some? {
        shown := Some(PanelOf(hovered.value, config));
      } else {
        shown := None;
      }
    }

    /** The click listener: a click on a region locks it and shows its panel; elsewhere it does nothing. */
    method Click(px: real, py: real)
      requires Valid()
      modifies this`locked, this`shown
      ensures State() == Step(old(State()), Dashboard.Click(px, py), regions, config)
      ensures Valid()
    {
      var clicked := NucleusAt(px, py);
      if clicked.Some? {
        locked := clicked;
        shown := Some(PanelOf(clicked.value, config));
      }
    }

    /** The "Clear Info Lock" listener. */
    method ClearSelection()
      modifies this`locked, this`shown
      ensures State() == Step(old(State()), ClearLock, regions, config)
      ensures State() == Dash(None, None) && Valid()
    {
      locked := None;
      shown := None;
    }

    /** The overlays of one nucleus and the region recorded for it. */
    method DrawNucleus(data: TileRecord, nuc: Nucleus, coords: seq<Coord>, offX: real, offY: real, dims: Dims)
      returns (marks: seq<Mark>, region: Region)
      ensures marks == NucleusMarks(nuc, coords, offX, offY, dims, config)
      ensures region == NucleusRegion(data, nuc, coords, offX, offY, dims)
    {
      var outline: seq<Mark> := [];
      if config.showOutlines {
        var edges := GetEdgePixels(coords, dims.width, dims.height);
        outline := OutlineMarks(edges, offX, offY);
      }
      assert outline == OutlinePart(coords, offX, offY, dims, config);
      var tag: seq<Mark> := [];
      if config.showLabels && nuc.centroid.Some? {
        tag := [Label(nuc.regionId, offX + nuc.centroid.value.1 * CanvasScale, offY + nuc.centroid.value.0 * CanvasScale, Yellow)];
      }
      assert tag == LabelPart(nuc, offX, offY, config);
      var key := CoordsKey(config.detector, config.threshold);
      var dots: seq<Mark> := [];
      if config.showFoci && key in nuc.fociCoords {
        dots := FociMarks(nuc.fociCoords[key], offX, offY, FociColor(config.detector));
      }
      assert dots == FociPart(nuc, offX, offY, config);
      marks := outline + tag + dots;
      var raw := ComputeBounds(coords);
      region := Region(data.tileId, nuc, MosaicBoxOf(raw, offX, offY), offX, offY, dims.width, dims.height, data);
    }

    /** The nuclei loop of one tile: the overlays and the region of each nucleus with a coordinate array, in order. */
    method DrawNuclei(data: TileRecord, nuclei: seq<Nucleus>, offX: real, offY: real, dims: Dims)
      returns (overlays: seq<Mark>, tileRegions: seq<Region>)
      ensures overlays == NucleiMarks(nuclei, offX, offY, dims, config)
      ensures tileRegions == NucleiRegions(data, nuclei, offX, offY, dims)
    {
      overlays := [];
      tileRegions := [];
      var j := 0;
      while j < |nuclei|
        invariant 0 <= j <= |nuclei|
        invariant overlays == NucleiMarks(nuclei[..j], offX, offY, dims, config)
        invariant tileRegions == NucleiRegions(data, nuclei[..j], offX, offY, dims)
      {
        assert nuclei[..j + 1][..j] == nuclei[..j];
        var nuc := nuclei[j];
        if nuc.pixelCoords.Some? {
          var ms, r := DrawNucleus(data, nuc, nuc.pixelCoords.value, offX, offY, dims);
          overlays := overlays + ms;
          tileRegions := tileRegions + [r];
        }
        j := j + 1;
      }
      assert nuclei[..j] == nuclei;
    }

    /** One decoded tile: its image scaled into grid cell `idx`, then each nucleus with a coordinate array, in order. */
    method DrawTile(d: Decoded, idx: nat, dims: Dims) returns (marks: seq<Mark>, tileRegions: seq<Region>)
      ensures marks == TileMarks(d, idx, dims, config)
      ensures tileRegions == TileRegions(d, idx, dims)
    {
      var offX, offY := OffsetX(idx, dims.width, CanvasScale), OffsetY(idx, dims.height, CanvasScale);
      var overlays;
      overlays, tileRegions := DrawNuclei(d.record, d.record.nuclei, offX, offY, dims);
      marks := [TileImage(d.record.tileId, offX, offY, dims.width as real * CanvasScale, dims.height as real * CanvasScale)] + overlays;
    }

    /**
     * `renderMergedCanvas`: keep the tiles whose image decodes; if none
     * does, leave the index as it was and show no overview; otherwise size
     * the canvas from the first decoded image, rebuild the index from
     * scratch, and draw each decoded tile into the next grid cell with its
     * nuclei's overlays.
     */
    method Render(list: seq<TileRecord>, load: Loader) returns (surface: Option<Surface>)
      modifies this`regions
      ensures Rendered(list, load, surface, old(regions))
    {
      var valid := DecodeAll(list, config.displayMode, load);
      if |valid| == 0 {
        return None;
      }
      var dims := valid[0].dims;
      var marks: seq<Mark> := [];
      regions := [];
      var idx := 0;
      while idx < |valid|
        invariant 0 <= idx <= |valid|
        invariant marks == MarksOf(valid[..idx], dims, config)
        invariant regions == RegionsOf(valid[..idx], dims)
      {
        var tileMarks, tileRegions := DrawTile(valid[idx], idx, dims);
        assert valid[..idx + 1][..idx] == valid[..idx];
        assert valid[..idx + 1][idx] == valid[idx];
        marks := marks + tileMarks;
        regions := regions + tileRegions;
        idx := idx + 1;
      }
      assert valid[..idx] == valid;
      surface := Some(Surface(CanvasWidth(dims.width, CanvasScale), CanvasHeight(|list|, dims.height, CanvasScale), marks));
    }

    /**
     * `redrawTiles`: re-render the current tile list, or do nothing when it is
     * empty. A `None` surface is then ambiguous: with an empty list the old
     * mosaic stays on screen, while a render with no decoded tile empties it.
     */
    method Redraw(load: Loader) returns (surface: Option<Surface>)
      modifies this`regions
      ensures tiles == [] ==> surface.None? && regions == old(regions)
      ensures tiles != [] ==> Rendered(tiles, load, surface, old(regions))
    {
      if |tiles| == 0 {
        return None;
      }
      surface := Render(tiles, load);
    }

    /** Choosing a dataset: adopt its tile list and render it when it is not empty. */
    method ShowDataset(list: seq<TileRecord>, load: Loader) returns (surface: Option<Surface>)
      modifies this`tiles, this`regions
      ensures tiles == list
      ensures list == [] ==> surface.None? && regions == old(regions)
      ensures list != [] ==> Rendered(list, load, surface, old(regions))
    {
      tiles := list;
      surface := Redraw(load);
    }

    /** The method selector. */
    method SelectDetector(detector: string, load: Loader) returns (surface: Option<Surface>)
      modifies this`config, this`regions
      ensures config == old(config).(detector := detector)
      ensures tiles == [] ==> surface.None? && regions == old(regions)
      ensures tiles != [] ==> Rendered(tiles, load, surface, old(regions))
    {
      config := config.(detector := detector);
      surface := Redraw(load);
    }

    /** The threshold selector. */
    method SelectThreshold(threshold: string, load: Loader) returns (surface: Option<Surface>)
      modifies this`config, this`regions
      ensures config == old(config).(threshold := threshold)
      ensures tiles == [] ==> surface.None? && regions == old(regions)
      ensures tiles != [] ==> Rendered(tiles, load, surface, old(regions))
    {
      config := config.(threshold := threshold);
      surface := Redraw(load);
    }

    /** The display-mode selector. */
    method SelectDisplayMode(mode: string, load: Loader) returns (surface: Option<Surface>)
      modifies this`config, this`regions
      ensures config == old(config).(displayMode := mode)
      ensures tiles == [] ==> surface.None? && regions == old(regions)
      ensures tiles != [] ==> Rendered(tiles, load, surface, old(regions))
    {
      config := config.(displayMode := mode);
      surface := Redraw(load);
    }

    method ToggleFoci(load: Loader) returns (surface: Option<Surface>)
      modifies this`config, this`regions
      ensures config == old(config).(showFoci := !old(config).showFoci)
      ensures tiles == [] ==> surface.None? && regions == old(regions)
      ensures tiles != [] ==> Rendered(tiles, load, surface, old(regions))
    {
      config := config.(showFoci := !config.showFoci);
      surface := Redraw(load);
    }

    method ToggleLabels(load: Loader) returns (surface: Option<Surface>)
      modifies this`config, this`regions
      ensures config == old(config).(showLabels := !old(config).showLabels)
      ensures tiles == [] ==> surface.None? && regions == old(regions)
      ensures tiles != [] ==> Rendered(tiles, load, surface, old(regions))
    {
      config := config.(showLabels := !config.showLabels);
      surface := Redraw(load);
    }

    method ToggleOutlines(load: Loader) returns (surface: Option<Surface>)
      modifies this`config, this`regions
      ensures config == old(config).(showOutlines := !old(config).showOutlines)
      ensures tiles == [] ==> surface.None? && regions == old(regions)
      ensures tiles != [] ==> Rendered(tiles, load, surface, old(regions))
    {
      config := config.(showOutlines := !config.showOutlines);
      surface := Redraw(load);
    }
  }
}
