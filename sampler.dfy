/** Sampling a raster along an ordered pixel path (`get_pixel_values` in
    scripts/functions.py). */
module Sampler {
  import opened Common
  import opened Stats

  /** Where Python puts a slice bound `i` on a sequence of length `n`: a
      negative bound counts from the end, and the result is clamped to
      `[0, n]`. */
  function Norm(i: int, n: nat): (k: nat)
    ensures k <= n
    ensures 0 <= i <= n ==> k == i
  {
    if i < 0 then (if i + n < 0 then 0 else i + n)
    else if i > n then n
    else i
  }

  /** Python's `s[a:b]`. */
  function Slice<T>(s: seq<T>, a: int, b: int): seq<T>
  {
    var lo, hi := Norm(a, |s|), Norm(b, |s|);
    if lo < hi then s[lo..hi] else []
  }

  /** The slice holds exactly the elements of `s` at the positions between
      the normalised bounds, in order. */
  lemma SliceAt<T>(s: seq<T>, a: int, b: int)
    ensures var r, lo, hi := Slice(s, a, b), Norm(a, |s|), Norm(b, |s|);
            |r| == (if lo < hi then hi - lo else 0) &&
            forall k :: 0 <= k < |r| ==> r[k] == s[lo + k]
  {
  }

  /** `m[r0:r1, c0:c1]` flattened row by row, for row bounds already
      normalised; each row normalises the column bounds itself. */
  function Block(m: Matrix, r0: nat, r1: nat, c0: int, c1: int): (w: seq<Option<real>>)
    requires r1 <= |m|
    decreases r1 - r0
  {
    if r0 >= r1 then []
    else Slice(m[r0], c0, c1) + Block(m, r0 + 1, r1, c0, c1)
  }

  /** Pixel `(rr, cc)` lies in the slice `m[r0:r1, c0:c1]`. */
  predicate InBlock(m: Matrix, r0: nat, r1: nat, c0: int, c1: int, rr: nat, cc: nat)
  {
    r0 <= rr < r1 && rr < |m| && Norm(c0, |m[rr]|) <= cc < Norm(c1, |m[rr]|)
  }

  /** A value belongs to a row slice iff some column between the
      normalised bounds holds it. */
  lemma RowContains(row: seq<Option<real>>, c0: int, c1: int, x: Option<real>)
    ensures x in Slice(row, c0, c1) <==>
      exists cc: nat :: Norm(c0, |row|) <= cc < Norm(c1, |row|) && row[cc] == x
  {
    var r, lo := Slice(row, c0, c1), Norm(c0, |row|);
    SliceAt(row, c0, c1);
    if x in r {
      var k :| 0 <= k < |r| && r[k] == x;
      assert row[lo + k] == x;
    }
    if exists cc: nat :: lo <= cc < Norm(c1, |row|) && row[cc] == x {
      var cc: nat :| lo <= cc < Norm(c1, |row|) && row[cc] == x;
      assert r[cc - lo] == x;
    }
  }

  /** Every value of the block comes from a pixel of the block. */
  lemma {:induction false} BlockHas(m: Matrix, r0: nat, r1: nat, c0: int, c1: int, x: Option<real>)
    requires r1 <= |m|
    requires x in Block(m, r0, r1, c0, c1)
    ensures exists rr: nat, cc: nat :: InBlock(m, r0, r1, c0, c1, rr, cc) && m[rr][cc] == x
    decreases r1 - r0
  {
    if x in Slice(m[r0], c0, c1) {
      RowContains(m[r0], c0, c1, x);
      var cc: nat :| Norm(c0, |m[r0]|) <= cc < Norm(c1, |m[r0]|) && m[r0][cc] == x;
      assert InBlock(m, r0, r1, c0, c1, r0, cc);
    } else {
      BlockHas(m, r0 + 1, r1, c0, c1, x);
      var rr: nat, cc: nat :| InBlock(m, r0 + 1, r1, c0, c1, rr, cc) && m[rr][cc] == x;
      assert InBlock(m, r0, r1, c0, c1, rr, cc);
    }
  }

  /** Every pixel of the block contributes its value to the block. */
  lemma {:induction false} BlockFrom(m: Matrix, r0: nat, r1: nat, c0: int, c1: int, rr: nat, cc: nat)
    requires r1 <= |m|
    requires InBlock(m, r0, r1, c0, c1, rr, cc)
    ensures m[rr][cc] in Block(m, r0, r1, c0, c1)
    decreases r1 - r0
  {
    var row, rest := Slice(m[r0], c0, c1), Block(m, r0 + 1, r1, c0, c1);
    assert Block(m, r0, r1, c0, c1) == row + rest;
    if rr == r0 {
      SliceAt(m[r0], c0, c1);
      assert row[cc - Norm(c0, |m[r0]|)] == m[rr][cc];
    } else {
      BlockFrom(m, r0 + 1, r1, c0, c1, rr, cc);
    }
  }

  /** The bounds of a window as written in the slice
      `matrix[top:bottom, left:right]`, before Python normalises them. */
  datatype Span = Span(top: int, bottom: int, left: int, right: int)

  /** `[row - g:row + g, col - g:col + g]`: the `2g x 2g` window whose
      top-left pixel is `g` rows and `g` columns before the cell. */
  function Around(c: Cell, g: nat): Span
  {
    Span(c.row - g, c.row + g, c.col - g, c.col + g)
  }

  /** The pixels `matrix[sp]` selects, flattened row by row, with Python's
      treatment of negative and overlong bounds. */
  function Window(m: Matrix, sp: Span): seq<Option<real>>
  {
    Block(m, Norm(sp.top, |m|), Norm(sp.bottom, |m|), sp.left, sp.right)
  }

  /** Pixel `(rr, cc)` is selected by `matrix[sp]`. */
  predicate InWindow(m: Matrix, sp: Span, rr: nat, cc: nat)
  {
    InBlock(m, Norm(sp.top, |m|), Norm(sp.bottom, |m|), sp.left, sp.right, rr, cc)
  }

  /** A value is in the window iff some selected pixel holds it. */
  lemma WindowContains(m: Matrix, sp: Span, x: Option<real>)
    ensures x in Window(m, sp) <==> exists rr: nat, cc: nat :: InWindow(m, sp, rr, cc) && m[rr][cc] == x
  {
    var r0, r1 := Norm(sp.top, |m|), Norm(sp.bottom, |m|);
    if x in Window(m, sp) {
      BlockHas(m, r0, r1, sp.left, sp.right, x);
    }
    if exists rr: nat, cc: nat :: InWindow(m, sp, rr, cc) && m[rr][cc] == x {
      var rr: nat, cc: nat :| InWindow(m, sp, rr, cc) && m[rr][cc] == x;
      BlockFrom(m, r0, r1, sp.left, sp.right, rr, cc);
    }
  }

  /** The filter `values[values <= max]` then `values[values >= min]`; an
      absent bound does not filter.  NaN fails every comparison. */
  predicate InRange(x: real, lo: Option<real>, hi: Option<real>)
  {
    (hi.None? || x <= hi.value) && (lo.None? || x >= lo.value)
  }

  /** The non-NaN values of `w` that pass the range filter, in window order. */
  function Survivors(w: seq<Option<real>>, lo: Option<real>, hi: Option<real>): (s: seq<real>)
    ensures |s| <= |w|
  {
    if w == [] then []
    else
      var rest := Survivors(w[1..], lo, hi);
      if w[0].Some? && InRange(w[0].value, lo, hi) then [w[0].value] + rest else rest
  }

  /** A value survives iff it is a number of the window that passes the
      filter. */
  lemma {:induction false} SurvivorsContain(w: seq<Option<real>>, lo: Option<real>, hi: Option<real>, x: real)
    ensures x in Survivors(w, lo, hi) <==> Some(x) in w && InRange(x, lo, hi)
  {
    if w != [] {
      SurvivorsContain(w[1..], lo, hi, x);
      assert w == [w[0]] + w[1..];
    }
  }

  /** The survivors keep every number of the window that passes the filter,
      as many times as the window holds it, and nothing else. */
  lemma {:induction false} SurvivorsMultiset(w: seq<Option<real>>, lo: Option<real>, hi: Option<real>, x: real)
    ensures multiset(Survivors(w, lo, hi))[x] == if InRange(x, lo, hi) then multiset(w)[Some(x)] else 0
  {
    if w != [] {
      SurvivorsMultiset(w[1..], lo, hi, x);
      assert w == [w[0]] + w[1..];
    }
  }

  /** What the loop body makes of a window: `nanmedian` of the values left
      by the filter, or NaN when none is left.  Without bounds an all-NaN
      window gives NaN too, since `nanmedian` skips NaN. */
  function Aggregate(w: seq<Option<real>>, lo: Option<real>, hi: Option<real>): Option<real>
  {
    var s := Survivors(w, lo, hi);
    if |s| == 0 then None else Some(Median(s))
  }

  /** The aggregate is NaN iff no number of the window passes the filter. */
  lemma AggregateNaN(w: seq<Option<real>>, lo: Option<real>, hi: Option<real>)
    ensures Aggregate(w, lo, hi).None? <==> forall x :: Some(x) in w ==> !InRange(x, lo, hi)
  {
    var s := Survivors(w, lo, hi);
    if |s| > 0 {
      SurvivorsContain(w, lo, hi, s[0]);
    } else {
      forall x | Some(x) in w
        ensures !InRange(x, lo, hi)
      {
        SurvivorsContain(w, lo, hi, x);
      }
    }
  }

  /** An aggregate that is a number is the median of the surviving values:
      it splits them in half, and it respects both bounds. */
  lemma AggregateMedian(w: seq<Option<real>>, lo: Option<real>, hi: Option<real>)
    requires Aggregate(w, lo, hi).Some?
    ensures var s, v := Survivors(w, lo, hi), Aggregate(w, lo, hi).value;
            |s| > 0 && 2 * CountLe(s, v) >= |s| && 2 * CountGe(s, v) >= |s|
    ensures lo.Some? ==> lo.value <= Aggregate(w, lo, hi).value
    ensures hi.Some? ==> Aggregate(w, lo, hi).value <= hi.value
  {
    var s := Survivors(w, lo, hi);
    MedianSplits(s);
    MedianBetween(s);
    var i :| 0 <= i < |s| && s[i] <= Median(s);
    var j :| 0 <= j < |s| && Median(s) <= s[j];
    SurvivorsContain(w, lo, hi, s[i]);
    SurvivorsContain(w, lo, hi, s[j]);
  }

  /** `lo2, hi2` filter at least as much as `lo1, hi1`. */
  predicate Tighter(lo2: Option<real>, hi2: Option<real>, lo1: Option<real>, hi1: Option<real>)
  {
    (lo1.Some? ==> lo2.Some? && lo2.value >= lo1.value) &&
    (hi1.Some? ==> hi2.Some? && hi2.value <= hi1.value)
  }

  /** Tightening the range filter never turns a NaN aggregate into a number. */
  lemma AggregateTighter(w: seq<Option<real>>, lo1: Option<real>, hi1: Option<real>,
                         lo2: Option<real>, hi2: Option<real>)
    requires Tighter(lo2, hi2, lo1, hi1)
    ensures Aggregate(w, lo1, hi1).None? ==> Aggregate(w, lo2, hi2).None?
  {
    var s2 := Survivors(w, lo2, hi2);
    if |s2| > 0 {
      SurvivorsContain(w, lo2, hi2, s2[0]);
      SurvivorsContain(w, lo1, hi1, s2[0]);
    }
  }

  /** The value `get_pixel_values` emits for one path cell. */
  function PixelValue(m: Matrix, c: Cell, g: nat, lo: Option<real>, hi: Option<real>): Option<real>
    requires g == 0 ==> InBounds(m, c)
  {
    if g > 0 then Aggregate(Window(m, Around(c, g)), lo, hi)
    else m[c.row][c.col]
  }

  predicate PathFits(m: Matrix, path: seq<Cell>, g: nat)
  {
    forall k :: 0 <= k < |path| ==>
      g == 0 ==> InBounds(m, path[k])
  }

  /** One iteration of `get_pixel_values`: the windowed median, or the
      pixel itself when there is no window. */
  method SampleCell(m: Matrix, c: Cell, g: nat, hi: Option<real>, lo: Option<real>) returns (x: Option<real>)
    requires g == 0 ==> InBounds(m, c)
    ensures x == PixelValue(m, c, g, lo, hi)
  {
    if g > 0 {
      var values := Survivors(Window(m, Around(c, g)), lo, hi);
      if |values| == 0 {
        x := None;
      } else {
        x := Some(Median(values));
      }
    } else {
      x := m[c.row][c.col];
    }
  }

  /** `get_pixel_values(path, matrix, group, max, min)`: one value per path
      cell, in path order; with no window the pixel itself, NaN included. */
  method GetPixelValues(path: seq<Cell>, m: Matrix, g: nat, hi: Option<real>, lo: Option<real>)
    returns (v: seq<Option<real>>)
    requires PathFits(m, path, g)
    ensures |v| == |path|
    ensures forall k :: 0 <= k < |path| ==> v[k] == PixelValue(m, path[k], g, lo, hi)
    ensures g == 0 ==> forall k :: 0 <= k < |path| ==> v[k] == m[path[k].row][path[k].col]
  {
    v := [];
    var i := 0;
    while i < |path|
      invariant 0 <= i <= |path|
      invariant |v| == i
      invariant forall k :: 0 <= k < i ==> v[k] == PixelValue(m, path[k], g, lo, hi)
    {
      var x := SampleCell(m, path[i], g, hi, lo);
      v := v + [x];
      i := i + 1;
    }
  }

  /** Pixel `(rr, cc)` is selected by `matrix[sp]` and holds a number that
      passes the range filter. */
  predicate ValidInWindow(m: Matrix, sp: Span, lo: Option<real>, hi: Option<real>, rr: nat, cc: nat)
  {
    InWindow(m, sp, rr, cc) && m[rr][cc].Some? && InRange(m[rr][cc].value, lo, hi)
  }

  /** With a window, the output is NaN exactly when no pixel of the window is
      a number that passes the range filter. */
  lemma WindowNaN(m: Matrix, c: Cell, g: nat, lo: Option<real>, hi: Option<real>)
    requires g > 0
    ensures PixelValue(m, c, g, lo, hi).None? <==>
      forall rr: nat, cc: nat :: !ValidInWindow(m, Around(c, g), lo, hi, rr, cc)
  {
    var sp := Around(c, g);
    var w := Window(m, sp);
    AggregateNaN(w, lo, hi);
    if Aggregate(w, lo, hi).Some? {
      var x :| Some(x) in w && InRange(x, lo, hi);
      WindowContains(m, sp, Some(x));
      var rr: nat, cc: nat :| InWindow(m, sp, rr, cc) && m[rr][cc] == Some(x);
      assert ValidInWindow(m, sp, lo, hi, rr, cc);
    } else {
      forall rr: nat, cc: nat
        ensures !ValidInWindow(m, sp, lo, hi, rr, cc)
      {
        if ValidInWindow(m, sp, lo, hi, rr, cc) {
          WindowContains(m, sp, m[rr][cc]);
        }
      }
    }
  }

  /** A cell fewer than `g` rows from the top of a raster at least `2g` rows
      high gets a negative slice start, which Python reads from the bottom:
      the window is empty and the output is NaN, whatever the pixels hold. */
  lemma NearTopEdgeNaN(m: Matrix, c: Cell, g: nat, lo: Option<real>, hi: Option<real>)
    requires c.row < g && 2 * g <= |m|
    ensures Window(m, Around(c, g)) == []
    ensures PixelValue(m, c, g, lo, hi).None?
  {
  }

  /** Away from the raster's top and left edges the window is the half-open
      block of rows `row - g .. row + g - 1` and columns `col - g .. col + g - 1`,
      cut to the raster. */
  lemma WindowInterior(m: Matrix, c: Cell, g: nat, rr: nat, cc: nat)
    requires g <= c.row && g <= c.col
    ensures InWindow(m, Around(c, g), rr, cc) <==>
      c.row - g <= rr < c.row + g && rr < |m| && c.col - g <= cc < c.col + g && cc < |m[rr]|
  {
  }
}
