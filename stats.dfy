/** The median numpy computes (`np.nanmedian` once NaNs are gone): sort the
    values; an odd count gives the middle one, an even count the mean of the
    two middle ones. */
module Stats {

  predicate Sorted(s: seq<real>)
  {
    forall i, j :: 0 <= i < j < |s| ==> s[i] <= s[j]
  }

  /** How many elements of `s` are at most `x`. */
  function CountLe(s: seq<real>, x: real): (n: nat)
    ensures n <= |s|
  {
    if s == [] then 0 else (if s[0] <= x then 1 else 0) + CountLe(s[1..], x)
  }

  /** How many elements of `s` are at least `x`. */
  function CountGe(s: seq<real>, x: real): (n: nat)
    ensures n <= |s|
  {
    if s == [] then 0 else (if s[0] >= x then 1 else 0) + CountGe(s[1..], x)
  }

  /** Inserts `y` before the first element of `t` that is not smaller. */
  function Insert(y: real, t: seq<real>): (r: seq<real>)
  {
    if t == [] || y <= t[0] then [y] + t else [t[0]] + Insert(y, t[1..])
  }

  /** Insertion sort. */
  function Sort(s: seq<real>): (t: seq<real>)
  {
    if s == [] then [] else Insert(s[0], Sort(s[1..]))
  }

  lemma {:induction false} InsertLength(y: real, t: seq<real>)
    ensures |Insert(y, t)| == |t| + 1
  {
    if t != [] && y > t[0] { InsertLength(y, t[1..]); }
  }

  lemma {:induction false} SortLength(s: seq<real>)
    ensures |Sort(s)| == |s|
  {
    if s != [] { SortLength(s[1..]); InsertLength(s[0], Sort(s[1..])); }
  }

  /** Inserting into a sorted sequence keeps it sorted and adds only `y`. */
  lemma {:induction false} InsertSorted(y: real, t: seq<real>)
    requires Sorted(t)
    ensures Sorted(Insert(y, t))
    ensures forall k :: 0 <= k < |Insert(y, t)| ==> Insert(y, t)[k] == y || Insert(y, t)[k] in t
  {
    InsertLength(y, t);
    if t != [] && y > t[0] {
      var u := Insert(y, t[1..]);
      InsertLength(y, t[1..]);
      InsertSorted(y, t[1..]);
      assert forall k :: 0 <= k < |u| ==> t[0] <= u[k] by {
        forall k | 0 <= k < |u| ensures t[0] <= u[k] {
          if u[k] != y {
            var j :| 0 <= j < |t[1..]| && t[1..][j] == u[k];
            assert t[j + 1] == u[k];
          }
        }
      }
      assert forall k :: 1 <= k < |t| + 1 ==> ([t[0]] + u)[k] == u[k - 1];
    }
  }

  lemma {:induction false} SortSorted(s: seq<real>)
    ensures Sorted(Sort(s))
  {
    if s != [] {
      SortSorted(s[1..]);
      InsertSorted(s[0], Sort(s[1..]));
    }
  }

  /** The middle of an already sorted sequence. */
  function Middle(t: seq<real>): real
    requires |t| > 0
  {
    var n := |t|;
    if n % 2 == 1 then t[n / 2] else (t[n / 2 - 1] + t[n / 2]) / 2.0
  }

  function Median(s: seq<real>): real
    requires |s| > 0
  {
    SortLength(s);
    Middle(Sort(s))
  }

  lemma {:induction false} CountInsert(y: real, t: seq<real>, x: real)
    ensures CountLe(Insert(y, t), x) == CountLe(t, x) + (if y <= x then 1 else 0)
    ensures CountGe(Insert(y, t), x) == CountGe(t, x) + (if y >= x then 1 else 0)
  {
    if t == [] || y <= t[0] {
      assert ([y] + t)[1..] == t;
    } else {
      var u := Insert(y, t[1..]);
      InsertLength(y, t[1..]);
      CountInsert(y, t[1..], x);
      assert ([t[0]] + u)[1..] == u;
    }
  }

  /** Sorting keeps every count: the sorted sequence is a permutation. */
  lemma {:induction false} CountSort(s: seq<real>, x: real)
    ensures CountLe(Sort(s), x) == CountLe(s, x)
    ensures CountGe(Sort(s), x) == CountGe(s, x)
  {
    if s != [] {
      CountSort(s[1..], x);
      CountInsert(s[0], Sort(s[1..]), x);
    }
  }

  lemma {:induction false} InsertMultiset(y: real, t: seq<real>)
    ensures multiset(Insert(y, t)) == multiset(t) + multiset{y}
  {
    if t != [] && y > t[0] {
      InsertMultiset(y, t[1..]);
      assert t == [t[0]] + t[1..];
    }
  }

  /** The sorted sequence is a permutation of the input. */
  lemma {:induction false} SortPermutation(s: seq<real>)
    ensures multiset(Sort(s)) == multiset(s)
  {
    if s != [] {
      SortPermutation(s[1..]);
      InsertMultiset(s[0], Sort(s[1..]));
      assert s == [s[0]] + s[1..];
    }
  }

  lemma {:induction false} CountLePrefix(t: seq<real>, x: real, p: nat)
    requires p <= |t|
    requires forall i :: 0 <= i < p ==> t[i] <= x
    ensures CountLe(t, x) >= p
  {
    if p > 0 {
      CountLePrefix(t[1..], x, p - 1);
    }
  }

  lemma {:induction false} CountGeSuffix(t: seq<real>, x: real, p: nat)
    requires p <= |t|
    requires forall i :: p <= i < |t| ==> t[i] >= x
    ensures CountGe(t, x) >= |t| - p
  {
    if t != [] {
      if p == 0 {
        CountGeSuffix(t[1..], x, 0);
      } else {
        CountGeSuffix(t[1..], x, p - 1);
      }
    }
  }

  lemma {:induction false} CountLeWitness(s: seq<real>, x: real)
    requires CountLe(s, x) > 0
    ensures exists i :: 0 <= i < |s| && s[i] <= x
  {
    if s[0] > x {
      CountLeWitness(s[1..], x);
      var i :| 0 <= i < |s[1..]| && s[1..][i] <= x;
      assert s[i + 1] <= x;
    }
  }

  lemma {:induction false} CountGeWitness(s: seq<real>, x: real)
    requires CountGe(s, x) > 0
    ensures exists i :: 0 <= i < |s| && s[i] >= x
  {
    if s[0] < x {
      CountGeWitness(s[1..], x);
      var i :| 0 <= i < |s[1..]| && s[1..][i] >= x;
      assert s[i + 1] >= x;
    }
  }

  /** The middle lies between the element that ends the lower half and
      the one that starts the upper half. */
  lemma MiddleHalves(t: seq<real>) returns (a: nat, b: nat)
    requires |t| > 0 && Sorted(t)
    ensures a < |t| && b < |t| && 2 * (a + 1) >= |t| && 2 * (|t| - b) >= |t|
    ensures t[a] <= Middle(t) <= t[b]
  {
    var n, k := |t|, |t| / 2;
    if n % 2 == 1 {
      a, b := k, k;
    } else {
      a, b := k - 1, k;
      assert t[a] <= t[b];
    }
  }

  lemma SortedMiddleSplits(t: seq<real>)
    requires |t| > 0 && Sorted(t)
    ensures 2 * CountLe(t, Middle(t)) >= |t|
    ensures 2 * CountGe(t, Middle(t)) >= |t|
  {
    var m := Middle(t);
    var a, b := MiddleHalves(t);
    forall i | 0 <= i < a + 1
      ensures t[i] <= m
    {
      assert t[i] <= t[a];
    }
    forall i | b <= i < |t|
      ensures t[i] >= m
    {
      assert t[b] <= t[i];
    }
    CountLePrefix(t, m, a + 1);
    CountGeSuffix(t, m, b);
  }

  /** The median splits the values in half: at least half of them are at most
      the median and at least half of them are at least the median. */
  lemma MedianSplits(s: seq<real>)
    requires |s| > 0
    ensures 2 * CountLe(s, Median(s)) >= |s|
    ensures 2 * CountGe(s, Median(s)) >= |s|
  {
    SortLength(s);
    CountSort(s, Median(s));
    SortSorted(s);
    SortedMiddleSplits(Sort(s));
  }

  /** The median lies between the least and the greatest value. */
  lemma MedianBetween(s: seq<real>)
    requires |s| > 0
    ensures exists i :: 0 <= i < |s| && s[i] <= Median(s)
    ensures exists j :: 0 <= j < |s| && Median(s) <= s[j]
  {
    MedianSplits(s);
    CountLeWitness(s, Median(s));
    CountGeWitness(s, Median(s));
  }

  /** Values that all lie in `[lo, hi]` have their median in `[lo, hi]`. */
  lemma MedianWithin(s: seq<real>, lo: real, hi: real)
    requires |s| > 0
    requires forall i :: 0 <= i < |s| ==> lo <= s[i] <= hi
    ensures lo <= Median(s) <= hi
  {
    MedianBetween(s);
  }
}
