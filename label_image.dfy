/**
 * What json_generation.py reads off a label image for each nucleus: the pixel
 * list `np.where(seg == id)` in row-major order, and the regions that
 * `regionprops` reports (one per positive label that occurs, in increasing
 * label order) with their pixel count and centroid.
 */
module LabelImage {
  import opened Records
  import opened Transform
  import opened FociDetection

  /** The pixels of one row equal to `id`, left to right, as `(y, x)`. */
  function RowPixels(row: seq<int>, y: int, id: int): seq<Coord> {
    if row == [] then []
    else RowPixels(row[..|row| - 1], y, id) + (if row[|row| - 1] == id then [(y, |row| - 1)] else [])
  }

  function RowsPixels(rows: seq<seq<int>>, id: int): seq<Coord> {
    if rows == [] then []
    else RowsPixels(rows[..|rows| - 1], id) + RowPixels(rows[|rows| - 1], |rows| - 1, id)
  }

  /** `list(zip(*np.where(seg == id)))`. */
  function PixelsOf(seg: Mask, id: int): seq<Coord> {
    RowsPixels(seg.rows, id)
  }

  /** Pixel `p` lies in the image and carries `id`. */
  predicate Labelled(seg: Mask, id: int, p: Coord) {
    0 <= p.0 < |seg.rows| && 0 <= p.1 < seg.width && seg.rows[p.0][p.1] == id
  }

  /** `a` comes strictly before `b` in row-major order. */
  predicate Before(a: Coord, b: Coord) {
    a.0 < b.0 || (a.0 == b.0 && a.1 < b.1)
  }

  predicate RowMajor(ps: seq<Coord>) {
    forall i, j :: 0 <= i < j < |ps| ==> Before(ps[i], ps[j])
  }

  lemma AppendRowMajor(a: seq<Coord>, b: seq<Coord>)
    requires RowMajor(a) && RowMajor(b)
    requires forall i, j :: 0 <= i < |a| && 0 <= j < |b| ==> Before(a[i], b[j])
    ensures RowMajor(a + b)
  {
    var c := a + b;
    forall i, j | 0 <= i < j < |c|
      ensures Before(c[i], c[j])
    {
      if j < |a| {
        assert c[i] == a[i] && c[j] == a[j];
      } else if i >= |a| {
        assert c[i] == b[i - |a|] && c[j] == b[j - |a|];
      } else {
        assert c[i] == a[i] && c[j] == b[j - |a|];
      }
    }
  }

  lemma {:induction false} RowPixelsSpec(row: seq<int>, y: int, id: int)
    ensures forall p :: p in RowPixels(row, y, id) <==> p.0 == y && 0 <= p.1 < |row| && row[p.1] == id
    ensures RowMajor(RowPixels(row, y, id))
  {
    if row != [] {
      var init := row[..|row| - 1];
      RowPixelsSpec(init, y, id);
      var a := RowPixels(init, y, id);
      var b: seq<Coord> := if row[|row| - 1] == id then [(y, |row| - 1)] else [];
      assert forall i :: 0 <= i < |a| ==> a[i] in a;
      AppendRowMajor(a, b);
    }
  }

  lemma {:induction false} RowsPixelsSpec(rows: seq<seq<int>>, id: int)
    ensures forall p :: p in RowsPixels(rows, id) <==> 0 <= p.0 < |rows| && 0 <= p.1 < |rows[p.0]| && rows[p.0][p.1] == id
    ensures RowMajor(RowsPixels(rows, id))
  {
    if rows != [] {
      var init := rows[..|rows| - 1];
      var y := |rows| - 1;
      RowsPixelsSpec(init, id);
      RowPixelsSpec(rows[y], y, id);
      var a := RowsPixels(init, id);
      var b := RowPixels(rows[y], y, id);
      assert forall i :: 0 <= i < |a| ==> a[i] in a;
      assert forall j :: 0 <= j < |b| ==> b[j] in b;
      AppendRowMajor(a, b);
    }
  }

  /**
   * The pixel list holds exactly the pixels labelled `id`, each once, in
   * row-major order.
   */
  lemma PixelsOfSpec(seg: Mask, id: int)
    ensures forall p :: p in PixelsOf(seg, id) <==> Labelled(seg, id, p)
    ensures RowMajor(PixelsOf(seg, id))
    ensures forall i, j :: 0 <= i < j < |PixelsOf(seg, id)| ==> PixelsOf(seg, id)[i] != PixelsOf(seg, id)[j]
  {
    RowsPixelsSpec(seg.rows, id);
  }

  /** The largest entry of a row, or 0. */
  function RowMax(row: seq<int>): nat {
    if row == [] then 0
    else
      var m := RowMax(row[..|row| - 1]);
      if row[|row| - 1] > m then row[|row| - 1] else m
  }

  /** The largest label of the image, or 0. */
  function MaxLabel(rows: seq<seq<int>>): nat {
    if rows == [] then 0
    else
      var m := MaxLabel(rows[..|rows| - 1]);
      var r := RowMax(rows[|rows| - 1]);
      if r > m then r else m
  }

  lemma {:induction false} RowMaxBounds(row: seq<int>)
    ensures forall x :: 0 <= x < |row| ==> row[x] <= RowMax(row)
  {
    if row != [] {
      RowMaxBounds(row[..|row| - 1]);
      assert forall x :: 0 <= x < |row| - 1 ==> row[x] == row[..|row| - 1][x];
    }
  }

  lemma {:induction false} MaxLabelBounds(rows: seq<seq<int>>)
    ensures forall y, x :: 0 <= y < |rows| && 0 <= x < |rows[y]| ==> rows[y][x] <= MaxLabel(rows)
  {
    if rows != [] {
      var init := rows[..|rows| - 1];
      MaxLabelBounds(init);
      RowMaxBounds(rows[|rows| - 1]);
      assert forall y :: 0 <= y < |init| ==> rows[y] == init[y];
    }
  }

  /** The labels below `n` that `regionprops` reports, in increasing order. */
  function LabelsBelow(seg: Mask, n: nat): seq<int> {
    if n == 0 then []
    else LabelsBelow(seg, n - 1) + (if n - 1 > 0 && PixelsOf(seg, n - 1) != [] then [n - 1] else [])
  }

  /** `regionprops(seg)`, by label. */
  function RegionLabels(seg: Mask): seq<int> {
    LabelsBelow(seg, MaxLabel(seg.rows) + 1)
  }

  lemma {:induction false} LabelsBelowMembers(seg: Mask, n: nat)
    ensures forall l :: l in LabelsBelow(seg, n) <==> 0 < l < n && PixelsOf(seg, l) != []
  {
    if n > 0 {
      LabelsBelowMembers(seg, n - 1);
    }
  }

  lemma {:induction false} LabelsBelowIncreasing(seg: Mask, n: nat)
    ensures forall i, j :: 0 <= i < j < |LabelsBelow(seg, n)| ==> LabelsBelow(seg, n)[i] < LabelsBelow(seg, n)[j]
  {
    if n > 0 {
      LabelsBelowIncreasing(seg, n - 1);
      LabelsBelowMembers(seg, n - 1);
      var a := LabelsBelow(seg, n - 1);
      assert forall i :: 0 <= i < |a| ==> a[i] in a;
      assert forall i :: 0 <= i < |a| ==> a[i] < n - 1;
    }
  }

  /**
   * `regionprops` reports every positive label that occurs in the image and
   * no other, each once, in increasing order.
   */
  lemma RegionLabelsSpec(seg: Mask)
    ensures forall l :: l in RegionLabels(seg) <==> l > 0 && PixelsOf(seg, l) != []
    ensures forall i, j :: 0 <= i < j < |RegionLabels(seg)| ==> RegionLabels(seg)[i] < RegionLabels(seg)[j]
  {
    LabelsBelowMembers(seg, MaxLabel(seg.rows) + 1);
    LabelsBelowIncreasing(seg, MaxLabel(seg.rows) + 1);
    MaxLabelBounds(seg.rows);
    forall l | l > 0 && PixelsOf(seg, l) != []
      ensures l <= MaxLabel(seg.rows)
    {
      PixelsOfSpec(seg, l);
      var p := PixelsOf(seg, l)[0];
      assert p in PixelsOf(seg, l);
    }
  }

  function SumY(ps: seq<Coord>): int {
    if ps == [] then 0 else SumY(ps[..|ps| - 1]) + ps[|ps| - 1].0
  }

  function SumX(ps: seq<Coord>): int {
    if ps == [] then 0 else SumX(ps[..|ps| - 1]) + ps[|ps| - 1].1
  }

  /** `r.centroid`: the mean row and the mean column of the region's pixels. */
  function Centroid(ps: seq<Coord>): (real, real)
    requires ps != []
  {
    (SumY(ps) as real / |ps| as real, SumX(ps) as real / |ps| as real)
  }

  /** `n` copies of `v`, summed. */
  function Times(n: nat, v: int): int {
    if n == 0 then 0 else Times(n - 1, v) + v
  }

  lemma {:induction false} TimesIsProduct(n: nat, v: int)
    ensures Times(n, v) == n * v
  {
    if n > 0 {
      TimesIsProduct(n - 1, v);
    }
  }

  lemma {:induction false} SumYBetween(ps: seq<Coord>, lo: int, hi: int)
    requires forall k :: 0 <= k < |ps| ==> lo <= ps[k].0 <= hi
    ensures Times(|ps|, lo) <= SumY(ps) <= Times(|ps|, hi)
  {
    if ps != [] {
      var init := ps[..|ps| - 1];
      assert forall k :: 0 <= k < |init| ==> init[k] == ps[k];
      SumYBetween(init, lo, hi);
    }
  }

  lemma {:induction false} SumXBetween(ps: seq<Coord>, lo: int, hi: int)
    requires forall k :: 0 <= k < |ps| ==> lo <= ps[k].1 <= hi
    ensures Times(|ps|, lo) <= SumX(ps) <= Times(|ps|, hi)
  {
    if ps != [] {
      var init := ps[..|ps| - 1];
      assert forall k :: 0 <= k < |init| ==> init[k] == ps[k];
      SumXBetween(init, lo, hi);
    }
  }

  lemma MeanBetween(sum: int, n: nat, lo: int, hi: int)
    requires n > 0 && Times(n, lo) <= sum <= Times(n, hi)
    ensures lo as real <= sum as real / n as real <= hi as real
  {
    TimesIsProduct(n, lo);
    TimesIsProduct(n, hi);
    DivideBetween(sum as real, n as real, lo as real, hi as real);
  }

  lemma DivideBetween(s: real, n: real, lo: real, hi: real)
    requires n > 0.0 && n * lo <= s <= n * hi
    ensures lo <= s / n <= hi
  {
    assert s / n - lo == (s - n * lo) / n;
    assert hi - s / n == (n * hi - s) / n;
  }

  /** The centroid lies inside the region's bounding box, so its label is drawn inside the nucleus's box. */
  lemma CentroidInsideBox(ps: seq<Coord>)
    requires ps != []
    ensures BoundsOf(ps).Some?
    ensures var b, c := BoundsOf(ps).value, Centroid(ps);
      b.minY as real <= c.0 <= b.maxY as real && b.minX as real <= c.1 <= b.maxX as real
  {
    BoundsOfIsTight(ps);
    var b := BoundsOf(ps).value;
    SumYBetween(ps, b.minY, b.maxY);
    SumXBetween(ps, b.minX, b.maxX);
    MeanBetween(SumY(ps), |ps|, b.minY, b.maxY);
    MeanBetween(SumX(ps), |ps|, b.minX, b.maxX);
  }
}
