/**
 * Outline extraction (`getEdgePixels` in script.js): the coordinates of a
 * nucleus mask that lie on its 4-connected boundary inside a tile of the
 * given width and height.
 */
module Outline {
  import opened Records

  predicate InBounds(y: int, x: int, width: int, height: int) {
    0 <= x < width && 0 <= y < height
  }

  /** A cell of the occupancy grid is set iff it is in range and some coordinate of the mask names it. */
  predicate Marked(coords: seq<Coord>, width: int, height: int, y: int, x: int) {
    InBounds(y, x, width, height) && (y, x) in coords
  }

  /** The neighbour offsets `(dy, dx)` in the order the scan tries them. */
  const Neighbours: seq<(int, int)> := [(0, 1), (1, 0), (0, -1), (-1, 0)]

  /** `p` is reported iff one of its four orthogonal neighbours is out of range or not marked. */
  predicate IsEdge(coords: seq<Coord>, width: int, height: int, p: Coord) {
    || !Marked(coords, width, height, p.0, p.1 + 1)
    || !Marked(coords, width, height, p.0 + 1, p.1)
    || !Marked(coords, width, height, p.0, p.1 - 1)
    || !Marked(coords, width, height, p.0 - 1, p.1)
  }

  /** The entries of `s`, in order and with repetitions, that are edges of the mask `coords`. */
  function EdgeFilter(coords: seq<Coord>, s: seq<Coord>, width: int, height: int): seq<Coord>
  {
    if s == [] then []
    else
      var last := s[|s| - 1];
      EdgeFilter(coords, s[..|s| - 1], width, height) + (if IsEdge(coords, width, height, last) then [last] else [])
  }

  /** What `getEdgePixels(coords, width, height)` returns. */
  function EdgePixels(coords: seq<Coord>, width: int, height: int): seq<Coord> {
    EdgeFilter(coords, coords, width, height)
  }

  /** The first pass: a fresh `height` x `width` grid with exactly the in-range coordinates of the mask set. */
  method BuildMask(coords: seq<Coord>, width: nat, height: nat) returns (mask: array2<bool>)
    ensures fresh(mask) && mask.Length0 == height && mask.Length1 == width
    ensures forall y, x :: 0 <= y < height && 0 <= x < width ==> (mask[y, x] <==> Marked(coords, width, height, y, x))
  {
    mask := new bool[height, width]((y, x) => false);
    var i := 0;
    while i < |coords|
      invariant 0 <= i <= |coords|
      invariant forall y, x :: 0 <= y < height && 0 <= x < width ==> (mask[y, x] <==> (y, x) in coords[..i])
    {
      var (y, x) := coords[i];
      if x >= 0 && x < width && y >= 0 && y < height {
        mask[y, x] := true;
      }
      assert coords[..i + 1] == coords[..i] + [coords[i]];
      i := i + 1;
    }
    assert coords[..i] == coords;
  }

  /**
   * `getEdgePixels`: build the occupancy grid, then scan the four neighbours
   * of every coordinate in order, reporting it at the first neighbour that is
   * out of range or unmarked.
   */
  method GetEdgePixels(coords: seq<Coord>, width: nat, height: nat) returns (edge: seq<Coord>)
    ensures edge == EdgePixels(coords, width, height)
  {
    var mask := BuildMask(coords, width, height);
    edge := [];
    var i := 0;
    while i < |coords|
      invariant 0 <= i <= |coords|
      invariant edge == EdgeFilter(coords, coords[..i], width, height)
    {
      var (y, x) := coords[i];
      assert coords[..i + 1][..i] == coords[..i];
      var j := 0;
      while j < |Neighbours|
        invariant 0 <= j <= |Neighbours|
        invariant edge == EdgeFilter(coords, coords[..i], width, height)
        invariant 0 < j ==> Marked(coords, width, height, y, x + 1)
        invariant 1 < j ==> Marked(coords, width, height, y + 1, x)
        invariant 2 < j ==> Marked(coords, width, height, y, x - 1)
        invariant 3 < j ==> Marked(coords, width, height, y - 1, x)
      {
        var ny := y + Neighbours[j].0;
        var nx := x + Neighbours[j].1;
        if ny < 0 || ny >= height || nx < 0 || nx >= width || !mask[ny, nx] {
          edge := edge + [(y, x)];
          break;
        }
        j := j + 1;
      }
      i := i + 1;
    }
    assert coords[..i] == coords;
  }

  /** `a` is `b` with some entries left out, order kept. */
  predicate IsSubsequence<T(==)>(a: seq<T>, b: seq<T>)
    decreases |b|
  {
    if a == [] then true
    else if b == [] then false
    else if a[|a| - 1] == b[|b| - 1] then IsSubsequence(a[..|a| - 1], b[..|b| - 1])
    else IsSubsequence(a, b[..|b| - 1])
  }

  lemma {:induction false} SubsequenceExtend<T>(a: seq<T>, b: seq<T>, x: T)
    requires IsSubsequence(a, b)
    ensures IsSubsequence(a, b + [x])
    ensures IsSubsequence(a + [x], b + [x])
    decreases |b|, 1
  {
    assert (b + [x])[..|b|] == b;
    assert (a + [x])[..|a|] == a;
    if a != [] && a[|a| - 1] == x {
      SubsequenceDrop(a, b);
    }
  }

  lemma {:induction false} SubsequenceDrop<T>(a: seq<T>, b: seq<T>)
    requires a != [] && IsSubsequence(a, b)
    ensures IsSubsequence(a[..|a| - 1], b)
    decreases |b|, 0
  {
    var a' := a[..|a| - 1];
    var b' := b[..|b| - 1];
    assert b' + [b[|b| - 1]] == b;
    if a' != [] {
      if a[|a| - 1] != b[|b| - 1] {
        SubsequenceDrop(a, b');
      }
      SubsequenceExtend(a', b', b[|b| - 1]);
    }
  }

  /** The outline keeps the input order and never has more entries than the mask. */
  lemma {:induction false} EdgeFilterIsSubsequence(coords: seq<Coord>, s: seq<Coord>, width: int, height: int)
    ensures IsSubsequence(EdgeFilter(coords, s, width, height), s)
    ensures |EdgeFilter(coords, s, width, height)| <= |s|
  {
    if s != [] {
      var init := s[..|s| - 1];
      var last := s[|s| - 1];
      assert init + [last] == s;
      var r := EdgeFilter(coords, init, width, height);
      EdgeFilterIsSubsequence(coords, init, width, height);
      SubsequenceExtend(r, init, last);
      if IsEdge(coords, width, height, last) {
        assert EdgeFilter(coords, s, width, height) == r + [last];
      } else {
        assert EdgeFilter(coords, s, width, height) == r;
      }
    }
  }

  /** Every reported pixel is an entry of the mask, and an entry is reported iff it is an edge. */
  lemma {:induction false} EdgeFilterMembership(coords: seq<Coord>, s: seq<Coord>, width: int, height: int, p: Coord)
    ensures p in EdgeFilter(coords, s, width, height) <==> p in s && IsEdge(coords, width, height, p)
  {
    if s != [] {
      EdgeFilterMembership(coords, s[..|s| - 1], width, height, p);
      assert s == s[..|s| - 1] + [s[|s| - 1]];
    }
  }

  /** One output entry per occurrence: an edge pixel appears as often as in the mask, any other pixel not at all. */
  lemma {:induction false} EdgeFilterOccurrences(coords: seq<Coord>, s: seq<Coord>, width: int, height: int, p: Coord)
    ensures multiset(EdgeFilter(coords, s, width, height))[p] == if IsEdge(coords, width, height, p) then multiset(s)[p] else 0
  {
    if s != [] {
      EdgeFilterOccurrences(coords, s[..|s| - 1], width, height, p);
      assert s == s[..|s| - 1] + [s[|s| - 1]];
    }
  }

  /** The properties of the whole outline, tied to the mask. */
  lemma EdgePixelsSpec(coords: seq<Coord>, width: int, height: int)
    ensures IsSubsequence(EdgePixels(coords, width, height), coords)
    ensures |EdgePixels(coords, width, height)| <= |coords|
    ensures forall p :: p in EdgePixels(coords, width, height) <==> p in coords && IsEdge(coords, width, height, p)
  {
    EdgeFilterIsSubsequence(coords, coords, width, height);
    forall p ensures p in EdgePixels(coords, width, height) <==> p in coords && IsEdge(coords, width, height, p) {
      EdgeFilterMembership(coords, coords, width, height, p);
    }
  }

  /** An out-of-range coordinate always has an out-of-range neighbour, so it is always reported. */
  lemma OutOfRangeIsEdge(coords: seq<Coord>, width: int, height: int, p: Coord)
    requires !InBounds(p.0, p.1, width, height)
    ensures IsEdge(coords, width, height, p)
  {
    if !(0 <= p.1 < width) {
      assert !InBounds(p.0 + 1, p.1, width, height);
    } else {
      assert !InBounds(p.0, p.1 + 1, width, height) || !InBounds(p.0 + 1, p.1, width, height) || !InBounds(p.0 - 1, p.1, width, height);
    }
  }

  /** Only the four orthogonal neighbours matter: adding a diagonal neighbour to the mask changes nothing for `p`. */
  lemma DiagonalIgnored(coords: seq<Coord>, width: int, height: int, p: Coord, dy: int, dx: int)
    requires (dy == 1 || dy == -1) && (dx == 1 || dx == -1)
    ensures IsEdge(coords + [(p.0 + dy, p.1 + dx)], width, height, p) == IsEdge(coords, width, height, p)
  {
  }

  /** If every entry of `s` is an edge, the filter keeps all of `s`. */
  lemma {:induction false} FilterKeepsAll(coords: seq<Coord>, s: seq<Coord>, width: int, height: int)
    requires forall k :: 0 <= k < |s| ==> IsEdge(coords, width, height, s[k])
    ensures EdgeFilter(coords, s, width, height) == s
  {
    if s != [] {
      FilterKeepsAll(coords, s[..|s| - 1], width, height);
      assert s == s[..|s| - 1] + [s[|s| - 1]];
    }
  }

  /** If every entry of `s` but the one at `c` is an edge, the filter drops exactly that entry. */
  lemma {:induction false} FilterDropsOne(coords: seq<Coord>, s: seq<Coord>, width: int, height: int, c: nat)
    requires c < |s|
    requires !IsEdge(coords, width, height, s[c])
    requires forall k :: 0 <= k < |s| && k != c ==> IsEdge(coords, width, height, s[k])
    ensures EdgeFilter(coords, s, width, height) == s[..c] + s[c + 1..]
  {
    var init := s[..|s| - 1];
    assert s == init + [s[|s| - 1]];
    if c == |s| - 1 {
      FilterKeepsAll(coords, init, width, height);
    } else {
      FilterDropsOne(coords, init, width, height, c);
      assert init[..c] == s[..c];
      assert init[c + 1..] + [s[|s| - 1]] == s[c + 1..];
    }
  }

  /** A mask made only of out-of-range coordinates is returned whole, not as an empty outline. */
  lemma AllOutOfRangeReturnsAll(coords: seq<Coord>, width: int, height: int)
    requires forall k :: 0 <= k < |coords| ==> !InBounds(coords[k].0, coords[k].1, width, height)
    ensures EdgePixels(coords, width, height) == coords
  {
    forall k | 0 <= k < |coords| ensures IsEdge(coords, width, height, coords[k]) {
      OutOfRangeIsEdge(coords, width, height, coords[k]);
    }
    FilterKeepsAll(coords, coords, width, height);
  }

  /** The filled 3x3 block with top-left corner `(y0, x0)`, row by row. */
  function Block3(y0: int, x0: int): seq<Coord> {
    [(y0, x0), (y0, x0 + 1), (y0, x0 + 2),
     (y0 + 1, x0), (y0 + 1, x0 + 1), (y0 + 1, x0 + 2),
     (y0 + 2, x0), (y0 + 2, x0 + 1), (y0 + 2, x0 + 2)]
  }

  lemma Block3Membership(y0: int, x0: int, p: Coord)
    ensures p in Block3(y0, x0) <==> y0 <= p.0 < y0 + 3 && x0 <= p.1 < x0 + 3
  {
    if y0 <= p.0 < y0 + 3 && x0 <= p.1 < x0 + 3 {
      assert p == Block3(y0, x0)[(p.0 - y0) * 3 + (p.1 - x0)];
    }
  }

  lemma BlockBorderIsEdge(y0: int, x0: int, width: int, height: int, p: Coord)
    requires y0 <= p.0 < y0 + 3 && x0 <= p.1 < x0 + 3 && p != (y0 + 1, x0 + 1)
    ensures IsEdge(Block3(y0, x0), width, height, p)
  {
    if p.0 == y0 {
      Block3Membership(y0, x0, (p.0 - 1, p.1));
    } else if p.0 == y0 + 2 {
      Block3Membership(y0, x0, (p.0 + 1, p.1));
    } else if p.1 == x0 {
      Block3Membership(y0, x0, (p.0, p.1 - 1));
    } else {
      Block3Membership(y0, x0, (p.0, p.1 + 1));
    }
  }

  lemma BlockCentreIsInterior(y0: int, x0: int, width: int, height: int)
    requires 0 <= y0 && y0 + 3 <= height && 0 <= x0 && x0 + 3 <= width
    ensures !IsEdge(Block3(y0, x0), width, height, (y0 + 1, x0 + 1))
  {
    var b := Block3(y0, x0);
    assert b[1] == (y0, x0 + 1) && b[3] == (y0 + 1, x0) && b[5] == (y0 + 1, x0 + 2) && b[7] == (y0 + 2, x0 + 1);
  }

  /** A filled 3x3 block inside the tile yields exactly its eight border pixels: the centre is dropped. */
  lemma FilledBlockOutline(y0: int, x0: int, width: int, height: int)
    requires 0 <= y0 && y0 + 3 <= height && 0 <= x0 && x0 + 3 <= width
    ensures EdgePixels(Block3(y0, x0), width, height) == Block3(y0, x0)[..4] + Block3(y0, x0)[5..]
  {
    var b := Block3(y0, x0);
    BlockCentreIsInterior(y0, x0, width, height);
    forall k | 0 <= k < 9 && k != 4 ensures IsEdge(b, width, height, b[k]) {
      Block3Membership(y0, x0, b[k]);
      BlockBorderIsEdge(y0, x0, width, height, b[k]);
    }
    FilterDropsOne(b, b, width, height, 4);
  }
}
