/**
 * The detail dashboard of script.js: the panel shown for a nucleus
 * (`updateDashboard`, `renderZoomView`) and the hover/lock/clear state
 * machine of the mosaic's pointer handlers. The state machine here is the
 * specification that the event methods of `Viewer.MosaicViewer` follow.
 */
module Dashboard {
  import opened Wrappers
  import opened Records
  import opened Transform
  import opened Mosaic

  /** The magnification of the zoom views. */
  const ZoomFactor: real := 4.0

  /** What a zoom canvas shows: the raw-space source rectangle, the canvas size, the foci markers. */
  datatype ZoomFrame = ZoomFrame(source: Box, width: real, height: real, dots: seq<Mark>)

  /**
   * One of the six zoom canvases: its channel, whether it is the annotated
   * row, the image it draws from, and the frame drawn once that image loads.
   * The frame is `None` when nothing is drawn: the record has no image for
   * the channel, so `onload` never runs and the canvas keeps what it showed,
   * or the region has no box.
   */
  datatype ZoomView = ZoomView(channel: string, annotated: bool, image: Option<string>, frame: Option<ZoomFrame>)

  /** The info table (identifier, area, count under the selected key, absent when the key is) and the six zoom views. */
  datatype Panel = Panel(region: Region, regionId: int, area: int, fociCount: Option<int>, views: seq<ZoomView>)

  /** The dashboard: the locked region, if any, and the panel on display, if any. */
  datatype Dash = Dash(locked: Option<Region>, shown: Option<Panel>)

  datatype Event = Move(x: real, y: real) | Click(x: real, y: real) | ClearLock

  /** The markers of an annotated view: one radius-8 dot per focus inside the half-open box, at its zoomed position. */
  function ZoomDots(foci: seq<Coord>, tb: Box, color: Color): seq<Mark> {
    var zs := ZoomFoci(foci, tb, ZoomFactor);
    seq(|zs|, i requires 0 <= i < |zs| => Dot(zs[i].0, zs[i].1, 2.0 * ZoomFactor, color))
  }

  /** The frame of a zoom view for a region with a box: the box back in raw space, four times enlarged. */
  function FrameOf(r: Region, b: Box, cfg: Config, annotated: bool): ZoomFrame {
    var tb := TileBox(b, r.offX, r.offY, CanvasScale);
    var dots := if annotated && cfg.showFoci && FociKey(cfg) in r.nuc.fociCoords
                then ZoomDots(r.nuc.fociCoords[FociKey(cfg)], tb, FociColor(cfg.detector))
                else [];
    ZoomFrame(tb, tb.width * ZoomFactor, tb.height * ZoomFactor, dots)
  }

  function ZoomViewOf(r: Region, cfg: Config, channel: string, annotated: bool): ZoomView {
    var image := ImagePath(r.data, channel);
    ZoomView(channel, annotated, image,
      if image.None? then None
      else match r.box case None => None case Some(b) => Some(FrameOf(r, b, cfg, annotated)))
  }

  /** `updateDashboard`: the info table and the raw row then the annotated row, each rad51, dapi, h2ax. */
  function PanelOf(r: Region, cfg: Config): Panel {
    Panel(r, r.nuc.regionId, r.nuc.area,
      if FociCountKey(cfg) in r.nuc.fociCounts then Some(r.nuc.fociCounts[FociCountKey(cfg)]) else None,
      [ZoomViewOf(r, cfg, "rad51", false), ZoomViewOf(r, cfg, "dapi", false), ZoomViewOf(r, cfg, "h2ax", false),
       ZoomViewOf(r, cfg, "rad51", true), ZoomViewOf(r, cfg, "dapi", true), ZoomViewOf(r, cfg, "h2ax", true)])
  }

  /**
   * One pointer event against the region index: a move is ignored while a
   * region is locked, and otherwise shows the panel of the region under the
   * pointer or clears it; a click on a region locks it (replacing any earlier
   * lock) and shows its panel, a click on nothing changes nothing; clearing
   * drops the lock and the panel.
   */
  function Step(d: Dash, e: Event, regions: seq<Region>, cfg: Config): Dash {
    match e
    case Move(x, y) =>
      if d.locked.Some? then d
      else (match FirstHit(regions, x, y)
            case Some(r) => Dash(None, Some(PanelOf(r, cfg)))
            case None => Dash(None, None))
    case Click(x, y) =>
      (match FirstHit(regions, x, y)
       case Some(r) => Dash(Some(r), Some(PanelOf(r, cfg)))
       case None => d)
    case ClearLock => Dash(None, None)
  }

  /** A run of events with the region index and settings held fixed (no redraw in between). */
  function Run(d: Dash, events: seq<Event>, regions: seq<Region>, cfg: Config): Dash
    decreases |events|
  {
    if events == [] then d else Run(Step(d, events[0], regions, cfg), events[1..], regions, cfg)
  }

  /** The dashboard invariant: a locked region is the one whose panel is on display. */
  predicate Coherent(d: Dash) {
    d.locked.Some? ==> d.shown.Some? && d.shown.value.region == d.locked.value
  }

  predicate AllMoves(events: seq<Event>) {
    forall i :: 0 <= i < |events| ==> events[i].Move?
  }

  /** Every event keeps the dashboard coherent. */
  lemma StepKeepsCoherent(d: Dash, e: Event, regions: seq<Region>, cfg: Config)
    requires Coherent(d)
    ensures Coherent(Step(d, e, regions, cfg))
  {
  }

  lemma {:induction false} RunKeepsCoherent(d: Dash, events: seq<Event>, regions: seq<Region>, cfg: Config)
    requires Coherent(d)
    ensures Coherent(Run(d, events, regions, cfg))
    decreases |events|
  {
    if events != [] {
      StepKeepsCoherent(d, events[0], regions, cfg);
      RunKeepsCoherent(Step(d, events[0], regions, cfg), events[1..], regions, cfg);
    }
  }

  /** While a region is locked, any number of pointer moves leaves the dashboard exactly as it is. */
  lemma {:induction false} MovesWhileLockedChangeNothing(d: Dash, events: seq<Event>, regions: seq<Region>, cfg: Config)
    requires d.locked.Some? && AllMoves(events)
    ensures Run(d, events, regions, cfg) == d
    decreases |events|
  {
    if events != [] {
      assert events[0].Move?;
      assert AllMoves(events[1..]) by {
        forall i | 0 <= i < |events[1..]| ensures events[1..][i].Move? {
          assert events[1..][i] == events[i + 1];
        }
      }
      MovesWhileLockedChangeNothing(d, events[1..], regions, cfg);
    }
  }

  /** Without a lock, a move shows the panel of the first region under the pointer, and nothing when there is none. */
  lemma MoveWhileUnlocked(d: Dash, x: real, y: real, regions: seq<Region>, cfg: Config)
    requires d.locked.None?
    ensures Step(d, Move(x, y), regions, cfg).locked.None?
    ensures Step(d, Move(x, y), regions, cfg).shown.Some? <==> exists i :: 0 <= i < |regions| && Hits(regions[i], x, y)
    ensures Step(d, Move(x, y), regions, cfg).shown.Some? ==>
      Step(d, Move(x, y), regions, cfg).shown.value == PanelOf(FirstHit(regions, x, y).value, cfg)
  {
    FirstHitIsFirstMatch(regions, x, y);
  }

  /** A click on a region locks it and shows its panel, whether or not another region was locked. */
  lemma ClickLocks(d: Dash, x: real, y: real, regions: seq<Region>, cfg: Config, i: nat)
    requires i < |regions| && Hits(regions[i], x, y)
    ensures FirstHit(regions, x, y).Some?
    ensures Step(d, Click(x, y), regions, cfg) ==
      Dash(FirstHit(regions, x, y), Some(PanelOf(FirstHit(regions, x, y).value, cfg)))
  {
    FirstHitIsFirstMatch(regions, x, y);
  }

  /** A click where no region is leaves the lock and the panel untouched. */
  lemma ClickOnNothing(d: Dash, x: real, y: real, regions: seq<Region>, cfg: Config)
    requires forall i :: 0 <= i < |regions| ==> !Hits(regions[i], x, y)
    ensures Step(d, Click(x, y), regions, cfg) == d
  {
    FirstHitIsFirstMatch(regions, x, y);
  }

  /**
   * Lock suppression: after clicking on region `r`, the panel of `r` stays
   * on display through any sequence of pointer moves, until the lock is
   * cleared, and clearing returns to the empty dashboard.
   */
  lemma {:induction false} LockHoldsUntilCleared(d: Dash, x: real, y: real, moves: seq<Event>, regions: seq<Region>, cfg: Config, r: Region)
    requires FirstHit(regions, x, y) == Some(r) && AllMoves(moves)
    ensures Run(d, [Click(x, y)] + moves, regions, cfg) == Dash(Some(r), Some(PanelOf(r, cfg)))
    ensures Run(d, [Click(x, y)] + moves + [ClearLock], regions, cfg) == Dash(None, None)
  {
    var locked := Dash(Some(r), Some(PanelOf(r, cfg)));
    assert ([Click(x, y)] + moves)[1..] == moves;
    MovesWhileLockedChangeNothing(locked, moves, regions, cfg);
    RunAppend(d, [Click(x, y)] + moves, [ClearLock], regions, cfg);
  }

  lemma {:induction false} RunAppend(d: Dash, a: seq<Event>, b: seq<Event>, regions: seq<Region>, cfg: Config)
    ensures Run(d, a + b, regions, cfg) == Run(Run(d, a, regions, cfg), b, regions, cfg)
    decreases |a|
  {
    if a == [] {
      assert a + b == b;
    } else {
      assert (a + b)[0] == a[0];
      assert (a + b)[1..] == a[1..] + b;
      RunAppend(Step(d, a[0], regions, cfg), a[1..], b, regions, cfg);
    }
  }

  /** Only the annotated row carries markers; the raw row shows the image alone. */
  lemma RawViewsHaveNoDots(r: Region, cfg: Config, channel: string)
    ensures ZoomViewOf(r, cfg, channel, false).frame.Some? ==> ZoomViewOf(r, cfg, channel, false).frame.value.dots == []
  {
  }

  /** A channel whose image the record does not name is never drawn, whatever the region. */
  lemma MissingImageIsNotDrawn(r: Region, cfg: Config, channel: string, annotated: bool)
    ensures ZoomViewOf(r, cfg, channel, annotated).frame.Some? ==> ImagePath(r.data, channel).Some?
    ensures ZoomViewOf(r, cfg, channel, annotated).image == ImagePath(r.data, channel)
  {
  }

  /**
   * For a region built from a mask, every zoom view whose image the record
   * names shows the mask's raw bounding box (corner `minX, minY`, inclusive
   * width and height) on a canvas four times its size.
   */
  lemma ZoomFrameIsMaskBox(r: Region, coords: seq<Coord>, cfg: Config, channel: string, annotated: bool)
    requires coords != [] && r.box == MosaicBoxOf(BoundsOf(coords), r.offX, r.offY)
    requires ImagePath(r.data, channel).Some?
    ensures BoundsOf(coords).Some?
    ensures var b := BoundsOf(coords).value;
      && ZoomViewOf(r, cfg, channel, annotated).frame.Some?
      && ZoomViewOf(r, cfg, channel, annotated).frame.value.source == RawAsBox(b)
      && ZoomViewOf(r, cfg, channel, annotated).frame.value.width == RawWidth(b) as real * ZoomFactor
      && ZoomViewOf(r, cfg, channel, annotated).frame.value.height == RawHeight(b) as real * ZoomFactor
  {
    BoundsOfIsTight(coords);
    TileBoxRoundTrip(BoundsOf(coords).value, r.offX, r.offY, CanvasScale);
  }

  /**
   * The annotated view of a region built from a mask, for a channel whose
   * image the record names, draws a marker at a
   * position iff some focus under the selected key lies inside the mask's
   * inclusive bounding box and zooms to that position.
   */
  lemma AnnotatedDotsAreFociInBox(r: Region, coords: seq<Coord>, cfg: Config, channel: string, q: (real, real))
    requires coords != [] && r.box == MosaicBoxOf(BoundsOf(coords), r.offX, r.offY)
    requires ImagePath(r.data, channel).Some?
    requires cfg.showFoci && FociKey(cfg) in r.nuc.fociCoords
    ensures BoundsOf(coords).Some?
    ensures var b := BoundsOf(coords).value;
      var dots := ZoomViewOf(r, cfg, channel, true).frame.value.dots;
      (exists i :: 0 <= i < |dots| && dots[i].x == q.0 && dots[i].y == q.1) <==>
      (exists f :: f in r.nuc.fociCoords[FociKey(cfg)] && b.minX <= f.1 <= b.maxX && b.minY <= f.0 <= b.maxY
         && q == ZoomPoint(RawAsBox(b), f, ZoomFactor))
  {
    ZoomFrameIsMaskBox(r, coords, cfg, channel, true);
    var b := BoundsOf(coords).value;
    var tb := RawAsBox(b);
    var foci := r.nuc.fociCoords[FociKey(cfg)];
    var zs := ZoomFoci(foci, tb, ZoomFactor);
    var dots := ZoomViewOf(r, cfg, channel, true).frame.value.dots;
    assert dots == ZoomDots(foci, tb, FociColor(cfg.detector));
    ZoomFociMembership(foci, tb, ZoomFactor, q);
    forall f ensures InHalfOpen(tb, f) <==> b.minX <= f.1 <= b.maxX && b.minY <= f.0 <= b.maxY {
      HalfOpenIsInclusive(b, f);
    }
    if exists i :: 0 <= i < |dots| && dots[i].x == q.0 && dots[i].y == q.1 {
      var i :| 0 <= i < |dots| && dots[i].x == q.0 && dots[i].y == q.1;
      assert zs[i] == q;
    }
    if q in zs {
      var i :| 0 <= i < |zs| && zs[i] == q;
      assert dots[i].x == q.0 && dots[i].y == q.1;
    }
  }

  /** The info table reports the count under `"{method}_count_th{th}"`, and nothing when the record lacks that key. */
  lemma PanelReportsSelectedCount(r: Region, cfg: Config)
    ensures PanelOf(r, cfg).fociCount.Some? <==> CountKey(cfg.detector, cfg.threshold) in r.nuc.fociCounts
    ensures PanelOf(r, cfg).fociCount.Some? ==> PanelOf(r, cfg).fociCount.value == r.nuc.fociCounts[CountKey(cfg.detector, cfg.threshold)]
    ensures PanelOf(r, cfg).regionId == r.nuc.regionId && PanelOf(r, cfg).area == r.nuc.area
  {
  }

  /**
   * A focus drawn both in the mosaic and in an annotated zoom view maps back
   * to the same raw pixel from each: the mosaic dot undoes the cell offset
   * and `canvasScale`, the zoom marker the box corner and the zoom factor.
   */
  lemma SamePixelInBothViews(r: Region, coords: seq<Coord>, cfg: Config, channel: string, i: nat)
    requires coords != [] && r.box == MosaicBoxOf(BoundsOf(coords), r.offX, r.offY)
    requires ImagePath(r.data, channel).Some?
    requires cfg.showFoci && FociKey(cfg) in r.nuc.fociCoords
    requires i < |r.nuc.fociCoords[FociKey(cfg)]|
    ensures var f, m := r.nuc.fociCoords[FociKey(cfg)][i], FociPart(r.nuc, r.offX, r.offY, cfg)[i];
      m.Dot? && (m.x - r.offX) / CanvasScale == f.1 as real && (m.y - r.offY) / CanvasScale == f.0 as real
    ensures BoundsOf(coords).Some?
    ensures var f, b := r.nuc.fociCoords[FociKey(cfg)][i], BoundsOf(coords).value;
      var fr := ZoomViewOf(r, cfg, channel, true).frame.value;
      b.minX <= f.1 <= b.maxX && b.minY <= f.0 <= b.maxY ==>
        exists d :: d in fr.dots && d.x / ZoomFactor + fr.source.x == f.1 as real && d.y / ZoomFactor + fr.source.y == f.0 as real
  {
    var foci := r.nuc.fociCoords[FociKey(cfg)];
    var f := foci[i];
    ScaleBack(f.1 as real, r.offX, CanvasScale);
    ScaleBack(f.0 as real, r.offY, CanvasScale);
    ZoomFrameIsMaskBox(r, coords, cfg, channel, true);
    var b := BoundsOf(coords).value;
    var tb := RawAsBox(b);
    if b.minX <= f.1 <= b.maxX && b.minY <= f.0 <= b.maxY {
      HalfOpenIsInclusive(b, f);
      assert f in foci;
      var q := ZoomPoint(tb, f, ZoomFactor);
      ZoomFociMembership(foci, tb, ZoomFactor, q);
      var zs := ZoomFoci(foci, tb, ZoomFactor);
      var k :| 0 <= k < |zs| && zs[k] == q;
      var dots := ZoomViewOf(r, cfg, channel, true).frame.value.dots;
      assert dots == ZoomDots(foci, tb, FociColor(cfg.detector));
      assert dots[k] in dots;
      ScaleBack(f.1 as real - tb.x, 0.0, ZoomFactor);
      ScaleBack(f.0 as real - tb.y, 0.0, ZoomFactor);
    }
  }
}
