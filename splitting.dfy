/**
 * splitting.py: a composite image of `h` rows and `w` columns is cut into a
 * 3-by-5 grid of equal tiles by floor division, tile `(i, j)` being saved as
 * `tile_NN.png` with `NN` the two-digit, one-based index `i * 5 + j + 1`. The
 * image is described by its size only; reading and writing files is outside
 * the model.
 */
module Splitting {
  const SplitRows: nat := 3
  const SplitCols: nat := 5

  /** `img.shape[0] // rows` and `img.shape[1] // cols`. */
  function TileHeight(h: nat): nat { h / SplitRows }
  function TileWidth(w: nat): nat { w / SplitCols }

  /** One saved tile: its file name and the half-open slice `[rowStart, rowEnd) x [colStart, colEnd)` it copies. */
  datatype Tile = Tile(name: string, rowStart: nat, rowEnd: nat, colStart: nat, colEnd: nat)

  function Digit(d: nat): char
    requires d < 10
  {
    (48 + d) as char
  }

  /** `f"{n:02d}"` for a number below 100. */
  function TwoDigits(n: nat): string
    requires n < 100
  {
    [Digit(n / 10), Digit(n % 10)]
  }

  /** The file name of grid index `idx`. */
  function TileName(idx: nat): string
    requires idx < SplitRows * SplitCols
  {
    "tile_" + TwoDigits(idx + 1) + ".png"
  }

  /** `img[i*tile_h:(i+1)*tile_h, j*tile_w:(j+1)*tile_w]` and its name. */
  function TileAt(i: nat, j: nat, h: nat, w: nat): Tile
    requires i < SplitRows && j < SplitCols
  {
    var th, tw := TileHeight(h), TileWidth(w);
    Tile(TileName(i * SplitCols + j), i * th, (i + 1) * th, j * tw, (j + 1) * tw)
  }

  /** Pixel `(r, c)` is copied into tile `t`. */
  predicate Covers(t: Tile, r: nat, c: nat) {
    t.rowStart <= r < t.rowEnd && t.colStart <= c < t.colEnd
  }

  /** The two loops: the `idx`-th tile saved is tile `(idx / 5, idx % 5)`. */
  method Split(h: nat, w: nat) returns (tiles: seq<Tile>)
    ensures |tiles| == SplitRows * SplitCols
    ensures forall idx :: 0 <= idx < |tiles| ==> tiles[idx] == TileAt(idx / SplitCols, idx % SplitCols, h, w)
  {
    var th, tw := h / SplitRows, w / SplitCols;
    tiles := [];
    for i := 0 to SplitRows
      invariant |tiles| == i * SplitCols
      invariant forall idx :: 0 <= idx < |tiles| ==> tiles[idx] == TileAt(idx / SplitCols, idx % SplitCols, h, w)
    {
      for j := 0 to SplitCols
        invariant |tiles| == i * SplitCols + j
        invariant forall idx :: 0 <= idx < |tiles| ==> tiles[idx] == TileAt(idx / SplitCols, idx % SplitCols, h, w)
      {
        var idx := i * SplitCols + j;
        assert idx / SplitCols == i && idx % SplitCols == j;
        tiles := tiles + [Tile("tile_" + TwoDigits(idx + 1) + ".png", i * th, (i + 1) * th, j * tw, (j + 1) * tw)];
      }
    }
  }

  /** Every tile lies inside the image and has the same size, `h div 3` by `w div 5`. */
  lemma TileInsideImage(i: nat, j: nat, h: nat, w: nat)
    requires i < SplitRows && j < SplitCols
    ensures var t := TileAt(i, j, h, w);
      && t.rowEnd <= h && t.colEnd <= w
      && t.rowEnd - t.rowStart == TileHeight(h) && t.colEnd - t.colStart == TileWidth(w)
  {
    var th, tw := TileHeight(h), TileWidth(w);
    assert (i + 1) * th <= SplitRows * th;
    assert (j + 1) * tw <= SplitCols * tw;
  }

  lemma SliceOrder(a: nat, b: nat, t: nat)
    requires a < b
    ensures (a + 1) * t <= b * t
  {
  }

  /** Distinct grid positions copy disjoint pixels. */
  lemma TilesDisjoint(i1: nat, j1: nat, i2: nat, j2: nat, h: nat, w: nat, r: nat, c: nat)
    requires i1 < SplitRows && j1 < SplitCols && i2 < SplitRows && j2 < SplitCols
    requires i1 != i2 || j1 != j2
    ensures !(Covers(TileAt(i1, j1, h, w), r, c) && Covers(TileAt(i2, j2, h, w), r, c))
  {
    var th, tw := TileHeight(h), TileWidth(w);
    if i1 < i2 { SliceOrder(i1, i2, th); }
    if i2 < i1 { SliceOrder(i2, i1, th); }
    if j1 < j2 { SliceOrder(j1, j2, tw); }
    if j2 < j1 { SliceOrder(j2, j1, tw); }
  }

  /** The slice holding `v` when slices of `t` are laid end to end: `v / t`. */
  lemma InSlice(v: nat, t: nat, n: nat) returns (k: nat)
    requires v < n * t
    ensures k * t <= v < (k + 1) * t && k < n
  {
    k := v / t;
  }

  lemma SliceBelow(i: nat, t: nat, n: nat)
    requires i < n
    ensures (i + 1) * t <= n * t
  {
  }

  /**
   * A pixel is copied into some tile iff it lies above the `h mod 3` bottom
   * rows and left of the `w mod 5` right columns that the floor division
   * leaves out.
   */
  lemma Coverage(h: nat, w: nat, r: nat, c: nat)
    ensures (exists i: nat, j: nat :: i < SplitRows && j < SplitCols && Covers(TileAt(i, j, h, w), r, c)) <==>
      r < SplitRows * TileHeight(h) && c < SplitCols * TileWidth(w)
  {
    if r < SplitRows * TileHeight(h) && c < SplitCols * TileWidth(w) {
      var i, j := CoveringTile(h, w, r, c);
    }
    if exists i: nat, j: nat :: i < SplitRows && j < SplitCols && Covers(TileAt(i, j, h, w), r, c) {
      var i: nat, j: nat :| i < SplitRows && j < SplitCols && Covers(TileAt(i, j, h, w), r, c);
      CoveredIsInside(i, j, h, w, r, c);
    }
  }

  lemma CoveringTile(h: nat, w: nat, r: nat, c: nat) returns (i: nat, j: nat)
    requires r < SplitRows * TileHeight(h) && c < SplitCols * TileWidth(w)
    ensures i < SplitRows && j < SplitCols && Covers(TileAt(i, j, h, w), r, c)
  {
    var th, tw := TileHeight(h), TileWidth(w);
    i := InSlice(r, th, SplitRows);
    j := InSlice(c, tw, SplitCols);
    CoversTile(i, j, h, w, r, c);
  }

  lemma CoveredIsInside(i: nat, j: nat, h: nat, w: nat, r: nat, c: nat)
    requires i < SplitRows && j < SplitCols && Covers(TileAt(i, j, h, w), r, c)
    ensures r < SplitRows * TileHeight(h) && c < SplitCols * TileWidth(w)
  {
    CoversTile(i, j, h, w, r, c);
    SliceBelow(i, TileHeight(h), SplitRows);
    SliceBelow(j, TileWidth(w), SplitCols);
  }

  lemma CoversTile(i: nat, j: nat, h: nat, w: nat, r: nat, c: nat)
    requires i < SplitRows && j < SplitCols
    ensures Covers(TileAt(i, j, h, w), r, c) <==>
      i * TileHeight(h) <= r < (i + 1) * TileHeight(h) && j * TileWidth(w) <= c < (j + 1) * TileWidth(w)
  {
  }

  /** `idx = i * 5 + j` is a bijection from the 3-by-5 grid onto `0..14` with inverse `(idx / 5, idx % 5)`. */
  lemma IndexBijection(i: nat, j: nat, idx: nat)
    ensures i < SplitRows && j < SplitCols ==>
      i * SplitCols + j < SplitRows * SplitCols && (i * SplitCols + j) / SplitCols == i && (i * SplitCols + j) % SplitCols == j
    ensures idx < SplitRows * SplitCols ==>
      idx / SplitCols < SplitRows && idx % SplitCols < SplitCols && (idx / SplitCols) * SplitCols + idx % SplitCols == idx
  {
  }

  /** Distinct indices get distinct names. */
  lemma NamesDistinct(a: nat, b: nat)
    requires a < SplitRows * SplitCols && b < SplitRows * SplitCols && a != b
    ensures TileName(a) != TileName(b)
  {
    var na, nb := TileName(a), TileName(b);
    if (a + 1) / 10 != (b + 1) / 10 {
      assert na[5] != nb[5];
    } else {
      assert na[6] != nb[6];
    }
  }

  /** The names run from `tile_01.png` to `tile_15.png`. */
  lemma NameRange()
    ensures TileName(0) == "tile_01.png"
    ensures TileName(9) == "tile_10.png"
    ensures TileName(14) == "tile_15.png"
  {
  }

  /** `a` sorts strictly before `b` character by character, as Python compares strings. */
  predicate LexLess(a: string, b: string) {
    exists k :: 0 <= k < |a| && k < |b| && a[..k] == b[..k] && a[k] < b[k]
  }

  /** Zero padding makes the names sort in index order, so a sorted listing lists tiles in the order they were cut. */
  lemma NamesSortInIndexOrder(a: nat, b: nat)
    requires a < b < SplitRows * SplitCols
    ensures LexLess(TileName(a), TileName(b))
  {
    var na, nb := TileName(a), TileName(b);
    if (a + 1) / 10 != (b + 1) / 10 {
      assert na[..5] == nb[..5] && na[5] < nb[5];
    } else {
      assert na[..6] == nb[..6] && na[6] < nb[6];
    }
  }
}
