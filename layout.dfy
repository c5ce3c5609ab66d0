/**
 * The five-column grid of the mosaic (script.js, `renderMergedCanvas`) and the
 * tile lookup of the magnifier. The k-th successfully decoded tile goes to
 * column `k % 5`, row `k / 5`; cells are `W*s` by `H*s` mosaic pixels.
 */
module Layout {
  import opened Wrappers

  const Columns: nat := 5

  /** `Math.ceil(n / cols)`. */
  function GridRows(n: nat): nat {
    (n + Columns - 1) / Columns
  }

  function Col(k: nat): nat { k % Columns }
  function Row(k: nat): nat { k / Columns }

  /** `col * tileWidth * canvasScale`. */
  function OffsetX(k: nat, w: nat, s: real): real { (Col(k) * w) as real * s }
  /** `row * tileHeight * canvasScale`. */
  function OffsetY(k: nat, h: nat, s: real): real { (Row(k) * h) as real * s }

  /** `cols * tileWidth * canvasScale` by `rows * tileHeight * canvasScale`, where `n` counts every tile of the list. */
  function CanvasWidth(w: nat, s: real): real { (Columns * w) as real * s }
  function CanvasHeight(n: nat, h: nat, s: real): real { (GridRows(n) * h) as real * s }

  /** The half-open span `[c*w*s, (c+1)*w*s)` of column (or row) `c`. */
  predicate InSpan(c: nat, w: nat, s: real, p: real) {
    (c * w) as real * s <= p < ((c + 1) * w) as real * s
  }

  /** The cell `[col*W*s, (col+1)*W*s) x [row*H*s, (row+1)*H*s)` of grid index `k`. */
  predicate InCell(k: nat, w: nat, h: nat, s: real, px: real, py: real) {
    InSpan(Col(k), w, s, px) && InSpan(Row(k), h, s, py)
  }

  /** `GridRows` is the ceiling: enough rows for `n` tiles and not one more. */
  lemma GridRowsIsCeiling(n: nat)
    ensures GridRows(n) * Columns >= n
    ensures n > 0 ==> (GridRows(n) - 1) * Columns < n
    ensures n == 0 ==> GridRows(n) == 0
  {
  }

  lemma ScaleMonotone(a: int, b: int, s: real)
    requires a <= b && s > 0.0
    ensures a as real * s <= b as real * s
  {
  }

  /** The cell's right and bottom edges are the offsets plus one scaled tile. */
  lemma CellExtent(k: nat, w: nat, h: nat, s: real)
    ensures ((Col(k) + 1) * w) as real * s == OffsetX(k, w, s) + w as real * s
    ensures ((Row(k) + 1) * h) as real * s == OffsetY(k, h, s) + h as real * s
  {
    assert (Col(k) + 1) * w == Col(k) * w + w;
    assert (Row(k) + 1) * h == Row(k) * h + h;
  }

  /** Distinct grid indices map to distinct cells. */
  lemma CellsDistinct(k1: nat, k2: nat)
    requires k1 != k2
    ensures Col(k1) != Col(k2) || Row(k1) != Row(k2)
  {
    assert k1 == Row(k1) * Columns + Col(k1);
    assert k2 == Row(k2) * Columns + Col(k2);
  }

  lemma IntervalsApart(c1: nat, c2: nat, w: nat, s: real, p: real)
    requires c1 < c2 && s > 0.0
    requires InSpan(c1, w, s, p)
    ensures !InSpan(c2, w, s, p)
  {
    assert (c1 + 1) * w <= c2 * w;
    ScaleMonotone((c1 + 1) * w, c2 * w, s);
  }

  lemma SpansDisjoint(c1: nat, c2: nat, w: nat, s: real, p: real)
    requires c1 != c2 && s > 0.0
    ensures !(InSpan(c1, w, s, p) && InSpan(c2, w, s, p))
  {
    if InSpan(c1, w, s, p) && c1 < c2 {
      IntervalsApart(c1, c2, w, s, p);
    } else if InSpan(c2, w, s, p) && c2 < c1 {
      IntervalsApart(c2, c1, w, s, p);
    }
  }

  /** Distinct grid indices give non-overlapping cells. */
  lemma CellsDisjoint(k1: nat, k2: nat, w: nat, h: nat, s: real, px: real, py: real)
    requires k1 != k2 && s > 0.0
    ensures !(InCell(k1, w, h, s, px, py) && InCell(k2, w, h, s, px, py))
  {
    CellsDistinct(k1, k2);
    if Col(k1) != Col(k2) {
      SpansDisjoint(Col(k1), Col(k2), w, s, px);
    } else {
      SpansDisjoint(Row(k1), Row(k2), h, s, py);
    }
  }

  lemma MulMonotone(a: nat, b: nat, c: nat)
    requires a <= b
    ensures a * c <= b * c
  {
  }

  /** The row of a tile among the first `n` is one of the `GridRows(n)` rows. */
  lemma RowFits(k: nat, n: nat)
    requires k < n
    ensures Row(k) + 1 <= GridRows(n)
  {
    assert k == Row(k) * Columns + Col(k);
  }

  /** Every cell of a tile among the first `n` lies inside the canvas sized for `n` tiles. */
  lemma CellInsideCanvas(k: nat, n: nat, w: nat, h: nat, s: real)
    requires k < n && s > 0.0
    ensures 0.0 <= OffsetX(k, w, s) && OffsetX(k, w, s) + w as real * s <= CanvasWidth(w, s)
    ensures 0.0 <= OffsetY(k, h, s) && OffsetY(k, h, s) + h as real * s <= CanvasHeight(n, h, s)
  {
    CellExtent(k, w, h, s);
    ScaleMonotone(0, Col(k) * w, s);
    ScaleMonotone(0, Row(k) * h, s);
    MulMonotone(Col(k) + 1, Columns, w);
    ScaleMonotone((Col(k) + 1) * w, Columns * w, s);
    RowFits(k, n);
    MulMonotone(Row(k) + 1, GridRows(n), h);
    ScaleMonotone((Row(k) + 1) * h, GridRows(n) * h, s);
  }

  /** `Math.floor(mouse / scaledTileSize)`: the column (or row) under a mosaic coordinate. */
  function CellUnder(m: real, w: nat, s: real): int
    requires w > 0 && s > 0.0
  {
    (m / (w as real * s)).Floor
  }

  /** `(mouse - tileOffset) / canvasScale`: the raw-space position inside that column (or row). */
  function LocalIn(m: real, c: int, w: nat, s: real): real
    requires s > 0.0
  {
    (m - c as real * (w as real * s)) / s
  }

  /**
   * The tile lookup of the magnifier: the column and row under the pointer,
   * the index `row * cols + col`, and the raw-space position inside that
   * tile. Nothing is found when `index` is not below the number of decoded
   * tiles; a zero-sized cell divides by zero in the source, giving no index.
   */
  function MagnifierTarget(mx: real, my: real, w: nat, h: nat, s: real, valid: nat): Option<(int, real, real)>
    requires s > 0.0
  {
    if w == 0 || h == 0 then None
    else
      var col := CellUnder(mx, w, s);
      var row := CellUnder(my, h, s);
      var index := row * Columns + col;
      if index < valid then Some((index, LocalIn(mx, col, w, s), LocalIn(my, row, h, s)))
      else None
  }

  lemma FloorOf(c: int, f: real)
    requires 0.0 <= f < 1.0
    ensures (c as real + f).Floor == c
  {
  }

  lemma FractionBelowOne(l: real, w: nat)
    requires w > 0 && 0.0 <= l < w as real
    ensures 0.0 <= l / w as real < 1.0
  {
  }

  lemma DivideOut(c: int, l: real, w: nat, s: real)
    requires w > 0 && s > 0.0
    ensures ((c * w) as real * s + l * s) / (w as real * s) == c as real + l / w as real
  {
    var ws := w as real * s;
    assert (c * w) as real * s == c as real * ws;
    assert c as real * ws + l * s == (c as real + l / w as real) * ws;
  }

  lemma LocalBack(c: int, l: real, w: nat, s: real)
    requires s > 0.0
    ensures LocalIn((c * w) as real * s + l * s, c, w, s) == l
  {
    assert (c * w) as real * s == c as real * (w as real * s);
  }

  lemma CellUnderPoint(c: nat, l: real, w: nat, s: real)
    requires w > 0 && s > 0.0 && 0.0 <= l < w as real
    ensures CellUnder((c * w) as real * s + l * s, w, s) == c
  {
    DivideOut(c, l, w, s);
    FractionBelowOne(l, w);
    FloorOf(c, l / w as real);
  }

  /**
   * Pointing at raw position `(lx, ly)` of the k-th decoded tile finds that
   * tile and that position again: the magnifier inverts the layout.
   */
  lemma MagnifierInvertsLayout(k: nat, valid: nat, w: nat, h: nat, s: real, lx: real, ly: real)
    requires k < valid && w > 0 && h > 0 && s > 0.0
    requires 0.0 <= lx < w as real && 0.0 <= ly < h as real
    ensures MagnifierTarget(OffsetX(k, w, s) + lx * s, OffsetY(k, h, s) + ly * s, w, h, s, valid) == Some((k as int, lx, ly))
  {
    var c, r := Col(k), Row(k);
    var mx, my := OffsetX(k, w, s) + lx * s, OffsetY(k, h, s) + ly * s;
    assert mx == (c * w) as real * s + lx * s;
    assert my == (r * h) as real * s + ly * s;
    CellUnderPoint(c, lx, w, s);
    CellUnderPoint(r, ly, h, s);
    LocalBack(c, lx, w, s);
    LocalBack(r, ly, h, s);
    IndexOfCell(k);
  }

  lemma IndexOfCell(k: nat)
    ensures Row(k) * Columns + Col(k) == k
  {
  }
}
