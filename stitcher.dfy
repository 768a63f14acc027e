/** Stitching per-scene series into one along-river track
    (scripts/extract_data_along_river_paths.py, lines 45-63). */
module Stitcher {
  import opened Common

  /** One scene's series: a tag and five sampled variables per path cell. */
  datatype Scene = Scene(box: seq<string>, lat: seq<Option<real>>, lon: seq<Option<real>>,
                         tur: seq<Option<real>>, hue: seq<Option<real>>, rhow: seq<Option<real>>)
  {
    /** The six parallel arrays have one length. */
    predicate Valid()
    {
      |box| == |lat| && |lon| == |lat| && |tur| == |lat| && |hue| == |lat| && |rhow| == |lat|
    }

    function Len(): nat
    {
      |lat|
    }
  }

  /** One row of the final table. */
  datatype Row = Row(box: string, lat: Option<real>, lon: Option<real>,
                     tur: Option<real>, hue: Option<real>, rhow: Option<real>)

  /** `zip(box, lat, lon, tur, hue, rhow)`. */
  function Rows(s: Scene): (r: seq<Row>)
    requires s.Valid()
    ensures |r| == s.Len()
  {
    seq(s.Len(), k requires 0 <= k < s.Len() => Row(s.box[k], s.lat[k], s.lon[k], s.tur[k], s.hue[k], s.rhow[k]))
  }

  /** Python's `s[0:-i]`: everything but the last `i` elements, and nothing at
      all when `i` is 0 (because `-0` is `0`). */
  function Cut<T>(s: seq<T>, i: nat): (r: seq<T>)
    ensures i == 0 ==> r == []
    ensures 0 < i <= |s| ==> r == s[..|s| - i]
  {
    if i == 0 || i >= |s| then [] else s[..|s| - i]
  }

  /** Python's `s[j:]`. */
  function Drop<T>(s: seq<T>, j: nat): (r: seq<T>)
    ensures j <= |s| ==> r == s[j..]
  {
    if j >= |s| then [] else s[j..]
  }

  /** `np.concatenate((acc[0:-i], next[j:]))` applied to every array. */
  function Splice(acc: Scene, next: Scene, i: nat, j: nat): (r: Scene)
    requires acc.Valid() && next.Valid()
    ensures r.Valid()
  {
    Scene(Cut(acc.box, i) + Drop(next.box, j), Cut(acc.lat, i) + Drop(next.lat, j),
          Cut(acc.lon, i) + Drop(next.lon, j), Cut(acc.tur, i) + Drop(next.tur, j),
          Cut(acc.hue, i) + Drop(next.hue, j), Cut(acc.rhow, i) + Drop(next.rhow, j))
  }

  /** Splicing every array at one point splices the table's rows there. */
  lemma SpliceRows(acc: Scene, next: Scene, i: nat, j: nat)
    requires acc.Valid() && next.Valid()
    ensures Rows(Splice(acc, next, i, j)) == Cut(Rows(acc), i) + Drop(Rows(next), j)
  {
    var r := Splice(acc, next, i, j);
    var a, b := Cut(Rows(acc), i), Drop(Rows(next), j);
    assert |Rows(r)| == |a + b|;
    forall k | 0 <= k < |a + b| ensures Rows(r)[k] == (a + b)[k] {
      if k < |a| {
        assert (a + b)[k] == Rows(acc)[k];
      } else {
        assert (a + b)[k] == Rows(next)[j + k - |a|];
      }
    }
  }

  /** The length of a splice at a found candidate, and what it keeps: the
      accumulator before `acc[-i]`, then the next scene from `next[j]` on. */
  lemma SpliceShape(acc: Scene, next: Scene, i: nat, j: nat)
    requires acc.Valid() && next.Valid()
    requires 1 <= i <= acc.Len() && j < next.Len()
    ensures Splice(acc, next, i, j).Len() == acc.Len() - i + next.Len() - j
    ensures Splice(acc, next, i, j).Len() <= acc.Len() + next.Len() - 1
    ensures Rows(Splice(acc, next, i, j))[..acc.Len() - i] == Rows(acc)[..acc.Len() - i]
    ensures Rows(Splice(acc, next, i, j))[acc.Len() - i..] == Rows(next)[j..]
    ensures Rows(Splice(acc, next, i, j))[acc.Len() - i] == Rows(next)[j]
  {
    SpliceRows(acc, next, i, j);
  }

  /** With no candidate (`i == j == 0`) the accumulator is thrown away and
      the result is the next scene. */
  lemma SpliceNoCandidate(acc: Scene, next: Scene)
    requires acc.Valid() && next.Valid()
    ensures Splice(acc, next, 0, 0) == next
  {
  }

  /** The initial `dist`; a pair at this distance or farther is never taken. */
  const Limit: real := 1000000000000.0

  /** The squared planar distance between two coordinate pairs; NaN when a
      coordinate is NaN.  Comparing squares picks the same pairs as comparing
      the square roots the code computes. */
  function SqDist(lat1: Option<real>, lon1: Option<real>, lat2: Option<real>, lon2: Option<real>): Option<real>
  {
    if lat1.Some? && lon1.Some? && lat2.Some? && lon2.Some? then
      var dy, dx := lat1.value - lat2.value, lon1.value - lon2.value;
      Some(dy * dy + dx * dx)
    else None
  }

  /** The squared distance between `acc[-i]` and `next[j]`. */
  function PairDist(acc: Scene, next: Scene, i: nat, j: nat): Option<real>
    requires acc.Valid() && next.Valid() && 1 <= i <= acc.Len() && j < next.Len()
  {
    var a := acc.Len() - i;
    SqDist(acc.lat[a], acc.lon[a], next.lat[j], next.lon[j])
  }

  /** The number of tail positions searched, `min(100, len(acc) / 2)`, with
      integer halving (see `SearchBoundAsWritten`). */
  function SearchBound(n: nat): (k: nat)
    ensures k <= 100 && 2 * k <= n
    ensures n >= 200 ==> k == 100
    ensures n < 200 ==> k == n / 2
  {
    if n / 2 < 100 then n / 2 else 100
  }

  /** The bound as written: `len(acc)/2` is a float, and `range` refuses the
      float `min(100, len(acc)/2)` unless the integer 100 is the minimum. */
  function SearchBoundAsWritten(n: nat): (r: Result<nat>)
    ensures r.Ok? <==> n >= 200
  {
    if 100 as real <= n as real / 2.0 then Ok(100) else Err(FloatRange)
  }

  /** Where the code runs at all, the corrected bound agrees with it. */
  lemma SearchBoundAgrees(n: nat)
    ensures SearchBoundAsWritten(n).Ok? ==> SearchBoundAsWritten(n).value == SearchBound(n)
  {
  }

  /** A short accumulator, as in a two-scene track of ten points, makes the
      code as written fail. */
  lemma SearchBoundAsWrittenFails()
    ensures SearchBoundAsWritten(10) == Err(FloatRange)
    ensures SearchBound(10) == 5
  {
  }

  /** A pair in the search range: `1 <= i < k` and `0 <= j < |next|`. */
  predicate InSearch(acc: Scene, next: Scene, k: nat, i: nat, j: nat)
  {
    1 <= i < k && i <= acc.Len() && j < next.Len()
  }

  /** `(i, j)` is visited before `(i2, j2)` by the nested loops. */
  predicate Before(i: nat, j: nat, i2: nat, j2: nat)
  {
    i < i2 || (i == i2 && j < j2)
  }

  /** `(ic, jc)` is what the search of lines 48-57 ends with: `(0, 0)` when
      no pair is closer than `Limit`, otherwise the first pair in visiting
      order whose distance is least. */
  ghost predicate BestPair(acc: Scene, next: Scene, k: nat, ic: nat, jc: nat)
    requires acc.Valid() && next.Valid()
  {
    if ic == 0 then
      jc == 0 &&
      forall i: nat, j: nat :: InSearch(acc, next, k, i, j) && PairDist(acc, next, i, j).Some? ==>
        PairDist(acc, next, i, j).value >= Limit * Limit
    else
      InSearch(acc, next, k, ic, jc) &&
      PairDist(acc, next, ic, jc).Some? && PairDist(acc, next, ic, jc).value < Limit * Limit &&
      (forall i: nat, j: nat :: InSearch(acc, next, k, i, j) && PairDist(acc, next, i, j).Some? ==>
         PairDist(acc, next, ic, jc).value <= PairDist(acc, next, i, j).value) &&
      (forall i: nat, j: nat ::
         (InSearch(acc, next, k, i, j) && PairDist(acc, next, i, j).Some? && Before(i, j, ic, jc)) ==>
           PairDist(acc, next, ic, jc).value < PairDist(acc, next, i, j).value)
  }

  /** The search state after visiting every pair before `(i, j)`: `best` is
      the least squared distance seen (or `Limit` squared) and `(ic, jc)` the
      first pair that reached it. */
  ghost predicate Searched(acc: Scene, next: Scene, k: nat, i: nat, j: nat, best: real, ic: nat, jc: nat)
    requires acc.Valid() && next.Valid()
  {
    best <= Limit * Limit &&
    (forall i': nat, j': nat ::
       (InSearch(acc, next, k, i', j') && Before(i', j', i, j) && PairDist(acc, next, i', j').Some?) ==>
         best <= PairDist(acc, next, i', j').value) &&
    (ic == 0 ==> jc == 0 && best == Limit * Limit) &&
    (ic != 0 ==>
       InSearch(acc, next, k, ic, jc) && Before(ic, jc, i, j) &&
       PairDist(acc, next, ic, jc) == Some(best) && best < Limit * Limit &&
       forall i': nat, j': nat ::
         (InSearch(acc, next, k, i', j') && Before(i', j', ic, jc) && PairDist(acc, next, i', j').Some?) ==>
           best < PairDist(acc, next, i', j').value)
  }

  /** The nested search loops of lines 48-57. */
  method FindSplice(acc: Scene, next: Scene) returns (ic: nat, jc: nat)
    requires acc.Valid() && next.Valid()
    ensures BestPair(acc, next, SearchBound(acc.Len()), ic, jc)
  {
    var k := SearchBound(acc.Len());
    var best := Limit * Limit;
    ic, jc := 0, 0;
    var i := 1;
    while i < k
      invariant 1 <= i && (k >= 1 ==> i <= k)
      invariant Searched(acc, next, k, i, 0, best, ic, jc)
    {
      var j := 0;
      while j < next.Len()
        invariant 0 <= j <= next.Len()
        invariant Searched(acc, next, k, i, j, best, ic, jc)
      {
        var a := acc.Len() - i;
        var d := SqDist(acc.lat[a], acc.lon[a], next.lat[j], next.lon[j]);
        if d.Some? && d.value < best {
          best, ic, jc := d.value, i, j;
        }
        j := j + 1;
      }
      i := i + 1;
    }
  }

  /** The search result is determined: at most one pair meets `BestPair`. */
  lemma BestPairUnique(acc: Scene, next: Scene, k: nat, ic1: nat, jc1: nat, ic2: nat, jc2: nat)
    requires acc.Valid() && next.Valid()
    requires BestPair(acc, next, k, ic1, jc1) && BestPair(acc, next, k, ic2, jc2)
    ensures ic1 == ic2 && jc1 == jc2
  {
    if ic1 != 0 && ic2 != 0 {
      assert PairDist(acc, next, ic1, jc1).Some? && PairDist(acc, next, ic2, jc2).Some?;
      if Before(ic1, jc1, ic2, jc2) || Before(ic2, jc2, ic1, jc1) {
        assert false;
      }
    } else if ic1 != 0 || ic2 != 0 {
      assert false;
    }
  }

  /** An accumulator of fewer than four points leaves no tail position to
      search, so the next scene replaces it. */
  lemma ShortTrackReplaced(acc: Scene, next: Scene, ic: nat, jc: nat)
    requires acc.Valid() && next.Valid() && acc.Len() < 4
    requires BestPair(acc, next, SearchBound(acc.Len()), ic, jc)
    ensures Splice(acc, next, ic, jc) == next
  {
    if ic != 0 {
      assert false;
    }
  }

  /** An empty next scene has no candidate pair, so the accumulated track is
      lost: the splice is empty. */
  lemma EmptySceneClearsTrack(acc: Scene, next: Scene, ic: nat, jc: nat)
    requires acc.Valid() && next.Valid() && next.Len() == 0
    requires BestPair(acc, next, SearchBound(acc.Len()), ic, jc)
    ensures Splice(acc, next, ic, jc).Len() == 0
  {
    if ic != 0 {
      assert false;
    }
  }

  /** One pass of the scene loop: a scene added to an empty accumulator
      becomes the accumulator; otherwise the accumulator is spliced with it at
      the pair the search finds. */
  ghost predicate Step(acc: Scene, next: Scene, out: Scene)
    requires acc.Valid() && next.Valid()
  {
    if acc.Len() == 0 then out == next
    else exists ic: nat, jc: nat ::
      BestPair(acc, next, SearchBound(acc.Len()), ic, jc) && out == Splice(acc, next, ic, jc)
  }

  /** What `Track.Merge` promises is one pass of the scene loop. */
  lemma MergeStep(acc: Scene, next: Scene, ic: nat, jc: nat, out: Scene)
    requires acc.Valid() && next.Valid()
    requires acc.Len() == 0 ==> out == next
    requires acc.Len() != 0 ==>
               BestPair(acc, next, SearchBound(acc.Len()), ic, jc) && out == Splice(acc, next, ic, jc)
    ensures Step(acc, next, out)
  {
  }

  /** A pass has one outcome. */
  lemma StepDeterministic(acc: Scene, next: Scene, out1: Scene, out2: Scene)
    requires acc.Valid() && next.Valid()
    requires Step(acc, next, out1) && Step(acc, next, out2)
    ensures out1 == out2
  {
    if acc.Len() != 0 {
      var k := SearchBound(acc.Len());
      var i1: nat, j1: nat :| BestPair(acc, next, k, i1, j1) && out1 == Splice(acc, next, i1, j1);
      var i2: nat, j2: nat :| BestPair(acc, next, k, i2, j2) && out2 == Splice(acc, next, i2, j2);
      BestPairUnique(acc, next, k, i1, j1, i2, j2);
    }
  }

  /** A splice invents no row. */
  lemma SpliceRowFrom(acc: Scene, next: Scene, ic: nat, jc: nat, row: Row)
    requires acc.Valid() && next.Valid() && row in Rows(Splice(acc, next, ic, jc))
    ensures row in Rows(acc) || row in Rows(next)
  {
    SpliceRows(acc, next, ic, jc);
    var a, b := Cut(Rows(acc), ic), Drop(Rows(next), jc);
    if row in a {
      var k :| 0 <= k < |a| && a[k] == row;
      assert Rows(acc)[k] == row;
    } else {
      var k :| 0 <= k < |b| && b[k] == row;
      assert Rows(next)[jc + k] == row;
    }
  }

  /** A pass invents no row: every row afterwards was a row of the
      accumulator or of the scene. */
  lemma StepRows(acc: Scene, next: Scene, out: Scene, row: Row)
    requires acc.Valid() && next.Valid() && Step(acc, next, out)
    requires out.Valid() && row in Rows(out)
    ensures row in Rows(acc) || row in Rows(next)
  {
    if acc.Len() != 0 {
      var ic: nat, jc: nat :| BestPair(acc, next, SearchBound(acc.Len()), ic, jc) && out == Splice(acc, next, ic, jc);
      SpliceRowFrom(acc, next, ic, jc, row);
    }
  }

  /** The accumulator of lines 24 and 45-63: six parallel arrays that every
      scene reassigns. */
  class Track {
    var box: seq<string>
    var lat: seq<Option<real>>
    var lon: seq<Option<real>>
    var tur: seq<Option<real>>
    var hue: seq<Option<real>>
    var rhow: seq<Option<real>>

    function Contents(): Scene
      reads this
    {
      Scene(box, lat, lon, tur, hue, rhow)
    }

    predicate Valid()
      reads this
    {
      Contents().Valid()
    }

    constructor ()
      ensures Valid() && Contents() == Scene([], [], [], [], [], [])
    {
      box, lat, lon, tur, hue, rhow := [], [], [], [], [], [];
    }

    /** Adds one scene: the first non-empty accumulator is the scene itself;
        afterwards the accumulator is spliced with the scene at the pair the
        search finds, which is returned. */
    method Merge(next: Scene) returns (ic: nat, jc: nat)
      requires Valid() && next.Valid()
      modifies this
      ensures Valid()
      ensures old(|lat|) == 0 ==> Contents() == next && ic == 0 && jc == 0
      ensures old(|lat|) != 0 ==>
                BestPair(old(Contents()), next, SearchBound(old(|lat|)), ic, jc) &&
                Contents() == Splice(old(Contents()), next, ic, jc)
    {
      if |lat| == 0 {
        box, lat, lon, tur, hue, rhow := next.box, next.lat, next.lon, next.tur, next.hue, next.rhow;
        ic, jc := 0, 0;
      } else {
        var acc := Contents();
        ic, jc := FindSplice(acc, next);
        lat := Cut(lat, ic) + Drop(next.lat, jc);
        lon := Cut(lon, ic) + Drop(next.lon, jc);
        tur := Cut(tur, ic) + Drop(next.tur, jc);
        hue := Cut(hue, ic) + Drop(next.hue, jc);
        rhow := Cut(rhow, ic) + Drop(next.rhow, jc);
        box := Cut(box, ic) + Drop(next.box, jc);
        assert Contents() == Splice(acc, next, ic, jc);
      }
    }
  }
}
