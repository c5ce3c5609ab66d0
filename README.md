# Foci finding: a verified model of the tile pipeline and the mosaic viewer

This project models the three programs of the foci-finding tool and how they
fit together.

- **splitting.py** cuts a composite microscopy image into a 3 by 5 grid of
  equal tiles named `tile_01.png` … `tile_15.png`.
- **json_generation.py** reads each RAD51 tile's nucleus segmentation (a label
  image). It runs a blob detector at three thresholds on the RAD51 channel
  and, when a probability map exists, at three thresholds on that map. It
  writes one record per tile: one entry per nucleus with its label, area,
  centroid and pixel list, plus, for each detector and threshold, the foci
  count, the foci area fraction and the foci coordinates. Each of those three
  is stored under a key of the form `{method}_{count|area|coords}_th{threshold}`.
  An index lists the tile ids.
- **script.js** is the browser viewer. It lays out the decoded tiles five to a
  row on a canvas downscaled by `canvasScale = 0.4`. For each nucleus it draws
  the outline (the 4-connected boundary of its mask), its label at the
  centroid, and its foci under the selected method and threshold. It records a
  bounding box per nucleus in `nucleiRegions`. Moving the pointer shows the
  nucleus under it unless a nucleus is locked; clicking locks a nucleus;
  "Clear Info Lock" unlocks. The dashboard shows the nucleus's foci count from
  its record and six zoom views of its bounding box, four times enlarged. The
  annotated row of zoom views marks the foci that fall inside the box.

The modules:

- `Wrappers` and `Records`: the shared record shapes and the key strings.
- `Splitting`: the 3 by 5 grid.
- `FociDetection`, `LabelImage` and `JsonGeneration`: `detect_blobs`, what a
  label image yields (`np.where`, `regionprops`), and record assembly.
- `Outline`, `Transform`, `Layout`, `Mosaic` and `Dashboard`: the viewer's
  computations, stated as functions.
- `Viewer.MosaicViewer`: the page's state as an object whose listener methods
  are proved against those functions.
- `Consistency`: properties that span the three programs. For example, when
  foci are shown, every focus the generator stores for a nucleus is drawn in
  its annotated RAD51 and DAPI zoom views, so each view shows exactly the
  count the info table reports. The generator names no H2AX image, so both
  H2AX views stay blank.

Environment effects are inputs to the model:

- A `Loader` maps an image path to its decoded size, or fails.
- A `BlobSource` gives the detector's rows for a method and a threshold.
- A `TileInput` gives a tile's label image (when its segmentation file
  exists), whether a probability map exists, and its blobs.

Coordinates and areas are exact reals.

## Model

| member | source | states |
|---|---|---|
| Splitting.Split | splitting.py:17-21 | Exactly 15 tiles are produced; the `idx`-th one saved is grid tile `(idx / 5, idx % 5)`, with its name and its slice bounds |
| Splitting.TileInsideImage | splitting.py:9-19 | Every tile's slice lies inside the image, and all tiles are `h div 3` by `w div 5` |
| Splitting.TilesDisjoint | splitting.py:19 | Two different grid positions never copy the same pixel |
| Splitting.Coverage | splitting.py:9-19 | A pixel is copied into some tile iff it lies above the `h mod 3` bottom rows and left of the `w mod 5` right columns that floor division drops |
| Splitting.IndexBijection | splitting.py:20 | `i*5 + j` maps the 3 by 5 grid one-to-one onto 0..14, with inverse `(idx / 5, idx % 5)` |
| Splitting.NamesDistinct | splitting.py:21 | Different indices give different file names |
| Splitting.NameRange | splitting.py:21 | The names are zero-padded and one-based: `tile_01.png`, `tile_10.png`, `tile_15.png` |
| Splitting.NamesSortInIndexOrder | splitting.py:21 | The zero padding makes names sort, character by character, in grid-index order |
| Records.CountKeyInjective | json_generation.py:103-114 | A count key determines its method and threshold |
| Records.AreaKeyInjective | json_generation.py:103-114 | An area key determines its method and threshold |
| Records.CoordsKeyInjective | json_generation.py:103-114 | A coordinates key determines its method and threshold |
| Records.CountAndCoordsKeysDiffer | json_generation.py:105-107 | A count key never equals a coordinates key, so the two fields never overwrite each other |
| Records.AreaKeysDiffer | json_generation.py:105-107 | An area key is never a count key nor a coordinates key |
| FociDetection.DetectBlobs | json_generation.py:25-42 | The kept detections are exactly the blobs with at least 3 entries whose truncated `(y, x)` lies in the image on a positive label, in detector order. A label is a key of both dictionaries iff some kept blob carries it; it then maps to that blob count and to its summed `pi*sigma^2` |
| FociDetection.AreaWithoutCount | json_generation.py:39-40 | A label with no kept blob has zero area, so the `get(region_id, 0)` defaults of the two dictionaries agree |
| FociDetection.TruncTowardZero | json_generation.py:35 | `int()` truncates toward zero: the floor for non-negative values, the ceiling for negative ones |
| FociDetection.TruncExamples | json_generation.py:35 | `-0.5` truncates to row 0, so a blob centred just above the image still counts; `2.7` gives 2 and `-2.7` gives -2 |
| FociDetection.DetectionsSound | json_generation.py:36-41 | Every kept detection is inside the image, on a pixel carrying its own label, and that label is positive |
| FociDetection.DetectionsExact | json_generation.py:31-41 | A detection is kept iff some blob classifies to it; there are never more detections than blobs |
| FociDetection.CountBounds | json_generation.py:38-39 | Background and negative labels are never counted, and no count exceeds the number of detections |
| LabelImage.PixelsOfSpec | json_generation.py:94 | The pixel list holds exactly the pixels carrying the label, each once, in row-major order |
| LabelImage.RegionLabelsSpec | json_generation.py:84 | The regions reported are exactly the positive labels that occur, each once, in increasing order |
| LabelImage.CentroidInsideBox | json_generation.py:93 | The centroid (mean row, mean column) of a non-empty region lies within its bounding box |
| JsonGeneration.AddThreshold | json_generation.py:103-107 | One threshold's `detect_blobs` call writes that threshold's count, area fraction (0 when the area is 0) and coordinates, and changes nothing else |
| JsonGeneration.BuildNucleus | json_generation.py:90-116 | The two threshold loops build the nucleus record: its geometry, the RAD51 fields, then the probability fields when a map exists |
| JsonGeneration.FociOfSpec | json_generation.py:107 | The stored `[y, x]` list has one entry per detection on the nucleus, and every entry comes from such a detection |
| JsonGeneration.FociInNucleus | json_generation.py:105-107 | Every stored focus is a pixel of its nucleus; the count equals the number of stored coordinates, and both are 0 iff no kept blob falls on the nucleus |
| JsonGeneration.EntriesForKeys | json_generation.py:103-114 | A threshold loop adds exactly its own keys and leaves every other entry unchanged |
| JsonGeneration.EntriesForValues | json_generation.py:103-107 | After the loop, threshold `th`'s keys hold that threshold's own count, area fraction and coordinates, even though later thresholds were written after it |
| JsonGeneration.ProbKeysAreNotRad51Keys | json_generation.py:109-114 | A probability-map key is never a RAD51 key, so the second loop cannot overwrite the first |
| JsonGeneration.RecordKeys | json_generation.py:96-114 | A record has count, area and coordinates keys for every RAD51 threshold, for every probability threshold exactly when a map exists, and no other foci key |
| JsonGeneration.RecordFields | json_generation.py:103-114 | For an available method and threshold, the record's fields are the count, the area fraction and the foci; the foci number exactly the count and all lie in `pixel_coords` |
| JsonGeneration.NoProbKeysWithoutMap | json_generation.py:109-114 | Without a probability map no `prob_*` field is written |
| JsonGeneration.ReportedRegionGeometry | json_generation.py:90-94 | A reported region carries its own label, a positive area equal to its pixel count, a centroid, and exactly the pixels with that label |
| JsonGeneration.BuildNuclei | json_generation.py:90-116 | The region loop yields one record per region, in region order |
| JsonGeneration.NucleiOfSpec | json_generation.py:84-116 | The nuclei list has one entry per reported region, and entry `i` is region `i`'s record |
| JsonGeneration.BuildTile | json_generation.py:118-123 | The tile record has the id, the RAD51 and DAPI image paths built from the id, and the nuclei list |
| JsonGeneration.TileJsonPaths | json_generation.py:118-123 | A record names `images/A1/rad51/{id}.png` and `images/A1/dapi/{id}.png`, and no H2AX image |
| JsonGeneration.GenerateTiles | json_generation.py:45-123 | The tile loop's index lists every listed file's id; its records are those of the listed tiles that have a segmentation, in order |
| JsonGeneration.ListedSpec | json_generation.py:45 | The listing keeps exactly the `.png` files whose name does not contain `Probabilities` |
| JsonGeneration.IndexOfSpec | json_generation.py:46-50 | The index has one entry per listed file, in order: the file name with `.png` removed |
| JsonGeneration.TileJsonsSpec | json_generation.py:48-123 | Every record belongs to a tile with a segmentation, under an id the index holds; there are never more records than index entries |
| JsonGeneration.TileJsonsPrefix | json_generation.py:48-123 | The records of the first `j` listed files are a prefix of all records |
| JsonGeneration.TileJsonsComplete | json_generation.py:48-123 | Every listed tile with a segmentation gets its record, directly after the records of the files listed before it |
| JsonGeneration.SkippedTileIsIndexedWithoutRecord | json_generation.py:50-58 | A listed tile with no segmentation is still in the index but gets no record |
| JsonGeneration.StripPngOfStem | json_generation.py:49 | For a stem that contains no `.png`, removing `.png` from `stem.png` gives the stem back |
| JsonGeneration.StripPngRemovesEveryOccurrence | json_generation.py:49 | `replace` removes every `.png`: `a.png.png` gets id `a`, so its record's image path names a different file |
| Outline.BuildMask | script.js:58-61 | The occupancy grid has `height` rows and `width` columns; a cell is set iff some in-range coordinate names it |
| Outline.GetEdgePixels | script.js:57-75 | The outline scan returns the edge filter of the mask |
| Outline.EdgePixelsSpec | script.js:62-73 | The outline keeps the mask's order and is never longer than the mask. A pixel is reported iff it is in the mask and one of its four orthogonal neighbours is out of range or unmarked |
| Outline.EdgeFilterOccurrences | script.js:63-73 | An edge pixel is reported as often as it occurs in the mask; any other pixel is never reported |
| Outline.OutOfRangeIsEdge | script.js:68 | A coordinate outside the tile always has an out-of-range neighbour, so it is always reported |
| Outline.DiagonalIgnored | script.js:64 | Adding a diagonal neighbour to the mask never changes whether a pixel is an edge |
| Outline.AllOutOfRangeReturnsAll | script.js:57-75 | A mask lying entirely outside the tile is returned whole, not as an empty outline |
| Outline.FilledBlockOutline | script.js:57-75 | For a filled 3 by 3 block inside the tile, the outline is its 8 border pixels in order, without the centre |
| Transform.ComputeBounds | script.js:173-179 | The min/max loop computes the running box of the mask; it is `None` for an empty mask, whose box stays infinite |
| Transform.BoundsOfIsTight | script.js:173-179 | The box is absent iff the mask is empty; otherwise it encloses every coordinate and each of its four sides is reached by some coordinate |
| Transform.BoundsExample | script.js:173-185 | `[[2,3],[2,5],[4,3]]` spans x 3..5 and y 2..4, so the box is 3 pixels wide and 3 high |
| Transform.TileBoxRoundTrip | script.js:325-330 | Converting a region's mosaic box back to tile space recovers `(minX, minY)` exactly, with the inclusive extent as width and height |
| Transform.HalfOpenIsInclusive | script.js:353-358 | On integer pixels, the half-open zoom test on that box is exactly `minX <= x <= maxX && minY <= y <= maxY` |
| Transform.ZoomFociMembership | script.js:352-362 | A marker is drawn iff some focus passes the half-open test, and it is drawn at `(x - tb.x)*z, (y - tb.y)*z` |
| Transform.ZoomFociInsideCanvas | script.js:331-360 | Every zoomed marker lies inside the `width*z` by `height*z` canvas |
| Transform.ZoomFociKeepsAll | script.js:352-362 | When every focus passes the test, every focus is drawn |
| Layout.GridRowsIsCeiling | script.js:95-96 | `rows` is the ceiling of `n / 5`: enough rows for `n` tiles and no more |
| Layout.CellsDistinct | script.js:129-130 | Different grid indices get different cells |
| Layout.CellsDisjoint | script.js:128-132 | Cells of different grid indices do not overlap |
| Layout.CellInsideCanvas | script.js:123-132 | Each cell among the first `n` lies inside the canvas sized for `n` tiles |
| Mosaic.DecodeAll | script.js:100-125 | At most as many tiles decode as are listed |
| Mosaic.DecodedCellsInsideCanvas | script.js:95-132 | The cell of every decoded tile lies inside the canvas, which is sized for the whole tile list |
| Layout.MagnifierInvertsLayout | script.js:200-212 | Pointing at raw position `(lx, ly)` of the k-th decoded tile makes the magnifier find tile k and that same position |
| Mosaic.DecodeAllMembership | script.js:100-119 | A tile is kept iff it is in the list and the image for the display mode decoded |
| Mosaic.FailedTileHasNoRegion | script.js:113-119 | A tile whose image fails contributes no region to the index |
| Mosaic.FailedTileShiftsLaterTiles | script.js:119-132 | Grid positions count only decoded tiles: when the third of five fails, the fourth and fifth take cells 2 and 3 |
| Mosaic.NucleiRegionsSpec | script.js:143-186 | There is exactly one region per nucleus with a coordinate array; each region carries that nucleus, its tile's id, record, offset and size, and the box of its mask |
| Mosaic.RegionsOfSpec | script.js:125-186 | The index counts every such nucleus of every decoded tile, and each region sits at the cell offset of its decoded tile |
| Mosaic.NucleiRegionsPrefix | script.js:143-186 | The regions of a tile's first `j` nuclei are a prefix of the tile's regions |
| Mosaic.NucleiRegionsComplete | script.js:143-186 | Every nucleus with a coordinate array has its region in the list, directly after the regions of the nuclei before it |
| Mosaic.RegionsOfPrefix | script.js:128-186 | The regions of the first `k` decoded tiles are a prefix of the index |
| Mosaic.RegionsOfComplete | script.js:128-186 | The index includes the region of every such nucleus of every decoded tile. The regions before it are all those of earlier tiles, then those of earlier nuclei of the same tile |
| Mosaic.FirstHitPrefix | script.js:229-242 | A hit found in a prefix of the index is the hit of the whole index |
| Mosaic.EarlierRegionWins | script.js:128-242 | A point inside the box of nucleus `j` of tile `k` selects something. The selection is that region or one pushed before it, never that of a later nucleus or a later tile |
| Mosaic.RegionsContainTheirPixels | script.js:173-186 | Every region's box contains, in mosaic space, every pixel of its own mask |
| Mosaic.FirstHitIsFirstMatch | script.js:229-242 | The hit test finds nothing iff no closed box contains the point; otherwise it returns the earliest region that contains it |
| Mosaic.OverlapFindsEarlier | script.js:230-239 | When two boxes overlap at a point, the region inserted first wins |
| Mosaic.NucleusDots | script.js:163-171 | A nucleus gets one mosaic dot per entry under `{method}_coords_th{threshold}` when foci are shown and the key exists; otherwise it gets none |
| Dashboard.PanelReportsSelectedCount | script.js:282-286 | The info table shows label and area. It shows the count under `{method}_count_th{threshold}` exactly when the record has that key |
| Dashboard.RawViewsHaveNoDots | script.js:289-291 | The raw row of zoom views shows the image alone, without markers |
| Dashboard.MissingImageIsNotDrawn | script.js:313-323 | A zoom view loads the channel's path from the record. When the record names no image for that channel, nothing is drawn |
| Dashboard.ZoomFrameIsMaskBox | script.js:313-332 | Every zoom view of a region whose record names the channel's image shows its mask's raw bounding box on a canvas four times its size |
| Dashboard.AnnotatedDotsAreFociInBox | script.js:347-365 | For a channel whose image the record names, the annotated view has a marker at a position iff some focus under the selected key lies in the mask's inclusive box and zooms to that position |
| Dashboard.SamePixelInBothViews | script.js:325-360 | A focus maps back to the same raw pixel from its mosaic dot (undo the cell offset and `canvasScale`) and, when inside the mask's box, from its zoom marker (undo the box corner and the zoom factor) |
| Dashboard.StepKeepsCoherent | script.js:245-274 | Each pointer or clear event keeps the invariant: a locked region is the one whose panel is shown |
| Dashboard.RunKeepsCoherent | script.js:245-274 | Any sequence of events keeps that invariant |
| Dashboard.MovesWhileLockedChangeNothing | script.js:246 | While a region is locked, no number of pointer moves changes the dashboard |
| Dashboard.MoveWhileUnlocked | script.js:245-256 | With no lock, a move shows a panel iff some region is under the pointer, and then it is the first such region's panel; a move never locks |
| Dashboard.ClickLocks | script.js:259-268 | A click on a region locks the first region there and shows its panel, replacing any earlier lock |
| Dashboard.ClickOnNothing | script.js:263-267 | A click where no region is leaves the lock and the panel as they were |
| Dashboard.LockHoldsUntilCleared | script.js:245-274 | After clicking region `r`, its panel stays through any pointer moves, and clearing returns to the empty dashboard |
| Viewer.MosaicViewer.constructor | script.js:5-36 | The page starts with no regions, no lock, no panel, an empty tile list and the default selection (rad51, 0.2, rad51 view, all overlays on) |
| Viewer.MosaicViewer.NucleusAt | script.js:229-242 | The loop returns the first region, in insertion order, whose box contains the point |
| Viewer.MosaicViewer.PointerMove | script.js:245-256 | The new dashboard is the hover step of the state machine, and the lock invariant is kept |
| Viewer.MosaicViewer.Click | script.js:259-268 | The new dashboard is the click step of the state machine, and the lock invariant is kept |
| Viewer.MosaicViewer.ClearSelection | script.js:271-274 | The lock and the panel are both cleared |
| Viewer.MosaicViewer.DrawNucleus | script.js:143-186 | The marks drawn for a nucleus are its outline, label and foci parts, and the region pushed carries its mask's box |
| Viewer.MosaicViewer.DrawNuclei | script.js:143-187 | The nuclei loop draws and records every nucleus with a coordinate array, in order |
| Viewer.MosaicViewer.DrawTile | script.js:128-187 | A decoded tile is drawn as its scaled image in cell `idx`, followed by its nuclei's overlays |
| Viewer.MosaicViewer.Render | script.js:91-188 | With no decoded tile, nothing is shown and the index is unchanged. Otherwise the canvas is sized from the first decoded image and the index is rebuilt from scratch, in tile then nucleus order |
| Viewer.MosaicViewer.Redraw | script.js:410-413 | An empty tile list leaves everything as it was; otherwise the current list is rendered |
| Viewer.MosaicViewer.ShowDataset | script.js:46-54 | The chosen dataset's tile list is adopted and rendered when it is not empty |
| Viewer.MosaicViewer.SelectDetector | script.js:372-375 | Only the method changes, then the tiles are redrawn |
| Viewer.MosaicViewer.SelectThreshold | script.js:377-380 | Only the threshold changes, then the tiles are redrawn |
| Viewer.MosaicViewer.SelectDisplayMode | script.js:382-385 | Only the display mode changes, then the tiles are redrawn |
| Viewer.MosaicViewer.ToggleFoci | script.js:387-391 | The foci toggle flips, then the tiles are redrawn |
| Viewer.MosaicViewer.ToggleLabels | script.js:393-397 | The label toggle flips, then the tiles are redrawn |
| Viewer.MosaicViewer.ToggleOutlines | script.js:399-403 | The outline toggle flips, then the tiles are redrawn |
| Consistency.SplitTilesAreListed | json_generation.py:45-49 | Every tile name the splitter writes passes the listing filter, and its id is the name without `.png` |
| Consistency.SplitGridIsViewerGrid | script.js:128-132 | Splitter tile `idx` takes the viewer's column `idx % 5` and row `idx / 5`; its cell offsets are its position in the composite scaled by `canvasScale` |
| Consistency.GeneratedTilesHaveNoH2axView | json_generation.py:118-123 | The generated records decode nothing in the H2AX display mode, so that view of generated data is empty |
| Consistency.FociInsideMaskBox | script.js:353-358 | Foci lying in a mask all pass the zoom view's half-open test on that mask's box |
| Consistency.GeneratedZoomChannels | json_generation.py:118-123 | A generated record names a Rad51 and a DAPI image. It names no H2AX image, so neither H2AX zoom view of it is drawn |
| Consistency.GeneratedFociAllDrawn | script.js:347-365 | Take a generated nucleus with an available method and threshold, foci shown, and a channel whose image the record names. The annotated zoom view and the mosaic each draw exactly as many markers as the info table's count |

## Left out

- Browser I/O is not modelled: `fetch`, JSON parsing, DOM tables, canvas pixels, fonts and CSS classes. Image decoding is the `Loader` parameter, and drawing calls are recorded as `Mark` values.
- The asynchronous order of promises is not modelled, and neither is the fail-fast preload (script.js:84), which never renders when one JSON fetch fails. The model renders once every record is at hand.
- Each render makes a new overview canvas with its own mouse-move and click listeners and detaches the previous one. Only the "Clear Info Lock" listener piles up across renders. Running it several times does what running it once does, so each event is modelled as being handled once.
- The magnifier's drawing (script.js:213-223) is left out; only its tile lookup and coordinate arithmetic are modelled.
- Layout.MagnifierTarget: a pointer left of or above the canvas gives a negative index. The source then reads an undefined tile; the model returns that index as found.
- `infoInPanel` (script.js:405-408) changes no output and is not modelled.
- renderZoomView looks up the tile in `tileCache` (script.js:312-313); the model uses the record stored with the region. The two differ only if the cache is replaced between render and hover.
- When the record names the channel's image, that image is assumed to decode. Its frame is what `onload` would draw. With no path, `onload` never runs and the frame is `None`.
- A region with an empty mask gets an infinite box in the source, which the hit test never matches. The model writes it as `None`.
- Numbers are exact reals and unbounded integers. IEEE doubles, the fractional canvas sizes the browser rounds, NumPy integer types and `convert_numpy` are not modelled.
- Reading and decoding images is not modelled: `imread`, `rgba2rgb`/`rgb2gray`, min-max normalisation (json_generation.py:60-81, 88), and the `prob[..., 1]` channel pick. They only feed the blob detector.
- `blob_log` itself, with its sigma range and threshold, is the `BlobSource` input.
- The `.npy` loading, with its `masks` key, is represented by the label image in `TileInput`.
- JsonGeneration.TileJson: every input of a tile is looked up by its stripped id. The source reads the RAD51 image, and so the blobs, by file name (json_generation.py:51), and only the segmentation and the probability map by id (53-54). The two differ only for names that collide after `.png` is removed, for example `a.png` and `a.png.png`. For those the model gives both records the blobs of the shared id.
- JsonGeneration.GenerateTiles: the listing is taken in the order given. The `sorted()` call (json_generation.py:45) is not modelled; `Splitting.NamesSortInIndexOrder` shows that sorting the splitter's names keeps their grid order.
- Writing the JSON files, `index.json` and the tile PNGs is not modelled, and neither are the progress messages. The model returns the records, the index and the tile slices.
- The composite image's pixels (splitting.py:5) are not modelled: `Splitting` works on its height and width only.
- The context scripts are not part of this model: count_foci_and_visualize.py, count_foci_and_visualize_v2.py, foci_threshold_debug.py, foci_threshold_comparison_panels.py and foci_summary_analysis.py.
