/**
 * The JSON shapes shared by the generator (json_generation.py) and the viewer
 * (script.js): one record per tile, one entry per nucleus, and the key strings
 * under which per-threshold foci counts and coordinates are stored and read.
 */
module Records {
  import opened Wrappers

  /** A pixel position as the records store it: `[row, column]`, that is `(y, x)`. */
  type Coord = (int, int)

  /**
   * One nucleus entry. `pixelCoords` is `None` when the field is not an array.
   * The per-threshold foci fields live in three maps keyed by `CountKey`,
   * `AreaKey` and `CoordsKey`; a key that is absent stands for a field that
   * is absent.
   */
  datatype Nucleus = Nucleus(
    regionId: int,
    area: int,
    centroid: Option<(real, real)>,
    pixelCoords: Option<seq<Coord>>,
    fociCounts: map<string, int>,
    fociAreas: map<string, real>,
    fociCoords: map<string, seq<Coord>>)

  /** One tile record: an image path per channel (absent paths are `None`) and its nuclei. */
  datatype TileRecord = TileRecord(
    tileId: string,
    rad51Image: Option<string>,
    dapiImage: Option<string>,
    h2axImage: Option<string>,
    nuclei: seq<Nucleus>)

  /** The two detection methods whose results the generator stores. */
  const Rad51: string := "rad51"
  const Prob: string := "prob"

  predicate IsDetector(d: string) {
    d == Rad51 || d == Prob
  }

  /** `"{method}_count_th{th}"`. */
  function CountKey(detector: string, th: string): string {
    detector + "_count_th" + th
  }

  /** `"{method}_area_th{th}"`. */
  function AreaKey(detector: string, th: string): string {
    detector + "_area_th" + th
  }

  /** `"{method}_coords_th{th}"`. */
  function CoordsKey(detector: string, th: string): string {
    detector + "_coords_th" + th
  }

  /** The image path a display mode or zoom channel selects; any other mode selects nothing. */
  function ImagePath(t: TileRecord, channel: string): Option<string> {
    if channel == "rad51" then t.rad51Image
    else if channel == "dapi" then t.dapiImage
    else if channel == "h2ax" then t.h2axImage
    else None
  }

  lemma PrefixAgree(a: string, b: string, c: string, d: string)
    requires a + b == c + d && |a| == |c|
    ensures a == c && b == d
  {
    assert a == (a + b)[..|a|];
    assert c == (c + d)[..|c|];
    assert b == (a + b)[|a|..];
    assert d == (c + d)[|c|..];
  }

  /** Two different detectors never produce the same coordinates key, and one detector's keys differ in the threshold. */
  lemma CoordsKeyInjective(d1: string, t1: string, d2: string, t2: string)
    requires IsDetector(d1) && IsDetector(d2)
    requires CoordsKey(d1, t1) == CoordsKey(d2, t2)
    ensures d1 == d2 && t1 == t2
  {
    assert CoordsKey(d1, t1)[0] == d1[0] && CoordsKey(d2, t2)[0] == d2[0];
    assert d1 == d2;
    PrefixAgree(d1 + "_coords_th", t1, d2 + "_coords_th", t2);
  }

  /** The same for count keys. */
  lemma CountKeyInjective(d1: string, t1: string, d2: string, t2: string)
    requires IsDetector(d1) && IsDetector(d2)
    requires CountKey(d1, t1) == CountKey(d2, t2)
    ensures d1 == d2 && t1 == t2
  {
    assert CountKey(d1, t1)[0] == d1[0] && CountKey(d2, t2)[0] == d2[0];
    assert d1 == d2;
    PrefixAgree(d1 + "_count_th", t1, d2 + "_count_th", t2);
  }

  /** A count key is never a coordinates key, so the two fields of one threshold never overwrite each other. */
  lemma CountAndCoordsKeysDiffer(d1: string, t1: string, d2: string, t2: string)
    requires IsDetector(d1) && IsDetector(d2)
    ensures CountKey(d1, t1) != CoordsKey(d2, t2)
  {
    if d1 != d2 {
      assert CountKey(d1, t1)[0] != CoordsKey(d2, t2)[0];
    } else {
      assert CountKey(d1, t1)[|d1| + 3] == 'u';
      assert CoordsKey(d2, t2)[|d2| + 3] == 'o';
    }
  }

  /** The same for area keys. */
  lemma AreaKeyInjective(d1: string, t1: string, d2: string, t2: string)
    requires IsDetector(d1) && IsDetector(d2)
    requires AreaKey(d1, t1) == AreaKey(d2, t2)
    ensures d1 == d2 && t1 == t2
  {
    assert AreaKey(d1, t1)[0] == d1[0] && AreaKey(d2, t2)[0] == d2[0];
    assert d1 == d2;
    PrefixAgree(d1 + "_area_th", t1, d2 + "_area_th", t2);
  }

  /** An area key is never a count key nor a coordinates key. */
  lemma AreaKeysDiffer(d1: string, t1: string, d2: string, t2: string)
    requires IsDetector(d1) && IsDetector(d2)
    ensures AreaKey(d1, t1) != CountKey(d2, t2) && AreaKey(d1, t1) != CoordsKey(d2, t2)
  {
    if d1 != d2 {
      assert AreaKey(d1, t1)[0] != CountKey(d2, t2)[0];
      assert AreaKey(d1, t1)[0] != CoordsKey(d2, t2)[0];
    } else {
      assert AreaKey(d1, t1)[|d1| + 1] == 'a';
      assert CountKey(d2, t2)[|d2| + 1] == 'c';
      assert CoordsKey(d2, t2)[|d2| + 1] == 'c';
    }
  }
}
