/** `drop_duplicates(subset=['Latitude', 'Longitude'], keep='first')` on the
    stitched table (scripts/extract_data_along_river_paths.py, line 67): a
    row is kept iff no earlier row has the same latitude and longitude.  Two
    NaN coordinates compare equal here, as they do for pandas. */
module Dedup {
  import opened Common
  import opened Stitcher

  type Key = (Option<real>, Option<real>)

  function KeyOf(r: Row): Key
  {
    (r.lat, r.lon)
  }

  function KeySet(rows: seq<Row>): set<Key>
  {
    set i | 0 <= i < |rows| :: KeyOf(rows[i])
  }

  /** No two rows share a key. */
  predicate Distinct(rows: seq<Row>)
  {
    forall i, j :: 0 <= i < j < |rows| ==> KeyOf(rows[i]) != KeyOf(rows[j])
  }

  /** `a` is `b` with some rows removed, the rest in order. */
  predicate IsSubsequence(a: seq<Row>, b: seq<Row>)
    decreases |b|
  {
    |a| == 0 ||
    (|b| > 0 && ((a[0] == b[0] && IsSubsequence(a[1..], b[1..])) || IsSubsequence(a, b[1..])))
  }

  /** A subsequence holds only elements of the sequence it comes from. */
  lemma {:induction false} SubsequenceIn(a: seq<Row>, b: seq<Row>, x: Row)
    requires IsSubsequence(a, b) && x in a
    ensures x in b
    decreases |b|
  {
    if a[0] == b[0] && IsSubsequence(a[1..], b[1..]) {
      if x != a[0] {
        assert x in a[1..];
        SubsequenceIn(a[1..], b[1..], x);
      }
    } else {
      SubsequenceIn(a, b[1..], x);
    }
  }

  /** The scan pandas performs: walk the rows in order, remembering the keys
      already seen, and keep a row iff its key is new. */
  function DedupFrom(rows: seq<Row>, seen: set<Key>): seq<Row>
    decreases |rows|
  {
    if |rows| == 0 then []
    else if KeyOf(rows[0]) in seen then DedupFrom(rows[1..], seen)
    else [rows[0]] + DedupFrom(rows[1..], seen + {KeyOf(rows[0])})
  }

  function DropDuplicates(rows: seq<Row>): seq<Row>
  {
    DedupFrom(rows, {})
  }

  /** Row `i` is the first row carrying its key. */
  predicate IsFirst(rows: seq<Row>, i: nat)
    requires i < |rows|
  {
    forall j :: 0 <= j < i ==> KeyOf(rows[j]) != KeyOf(rows[i])
  }

  /** Reference definition: the first occurrences among `rows[k..]`, in
      order, judged against the whole table. */
  function FirstsFrom(rows: seq<Row>, k: nat): seq<Row>
    requires k <= |rows|
    decreases |rows| - k
  {
    if k == |rows| then []
    else (if IsFirst(rows, k) then [rows[k]] else []) + FirstsFrom(rows, k + 1)
  }

  lemma KeySetCons(rows: seq<Row>)
    requires |rows| > 0
    ensures KeySet(rows) == {KeyOf(rows[0])} + KeySet(rows[1..])
  {
    forall key | key in KeySet(rows)
      ensures key in {KeyOf(rows[0])} + KeySet(rows[1..])
    {
      var i :| 0 <= i < |rows| && KeyOf(rows[i]) == key;
      if i > 0 {
        assert KeyOf(rows[1..][i - 1]) == key;
      }
    }
    forall key | key in KeySet(rows[1..])
      ensures key in KeySet(rows)
    {
      var i :| 0 <= i < |rows[1..]| && KeyOf(rows[1..][i]) == key;
      assert KeyOf(rows[i + 1]) == key;
    }
  }

  lemma KeySetSnoc(rows: seq<Row>, k: nat)
    requires k < |rows|
    ensures KeySet(rows[..k + 1]) == KeySet(rows[..k]) + {KeyOf(rows[k])}
  {
    assert rows[..k + 1][k] == rows[k];
    forall key | key in KeySet(rows[..k + 1])
      ensures key in KeySet(rows[..k]) + {KeyOf(rows[k])}
    {
      var i :| 0 <= i < k + 1 && KeyOf(rows[..k + 1][i]) == key;
      if i < k {
        assert KeyOf(rows[..k][i]) == key;
      }
    }
    forall key | key in KeySet(rows[..k])
      ensures key in KeySet(rows[..k + 1])
    {
      var i :| 0 <= i < k && KeyOf(rows[..k][i]) == key;
      assert KeyOf(rows[..k + 1][i]) == key;
    }
  }

  /** The scan keeps distinct keys, and exactly the keys not seen before. */
  lemma {:induction false} DedupKeys(rows: seq<Row>, seen: set<Key>)
    ensures Distinct(DedupFrom(rows, seen))
    ensures KeySet(DedupFrom(rows, seen)) == KeySet(rows) - seen
    decreases |rows|
  {
    if |rows| > 0 {
      var k0 := KeyOf(rows[0]);
      KeySetCons(rows);
      if k0 in seen {
        DedupKeys(rows[1..], seen);
      } else {
        var tail := DedupFrom(rows[1..], seen + {k0});
        DedupKeys(rows[1..], seen + {k0});
        var out := [rows[0]] + tail;
        assert out[1..] == tail;
        KeySetCons(out);
        forall i, j | 0 <= i < j < |out|
          ensures KeyOf(out[i]) != KeyOf(out[j])
        {
          if i == 0 {
            assert KeyOf(tail[j - 1]) in KeySet(tail);
          } else {
            assert out[i] == tail[i - 1] && out[j] == tail[j - 1];
          }
        }
      }
    }
  }

  /** The scan only removes rows. */
  lemma {:induction false} DedupSubsequence(rows: seq<Row>, seen: set<Key>)
    ensures IsSubsequence(DedupFrom(rows, seen), rows)
    decreases |rows|
  {
    if |rows| > 0 {
      var k0 := KeyOf(rows[0]);
      if k0 in seen {
        DedupSubsequence(rows[1..], seen);
      } else {
        DedupSubsequence(rows[1..], seen + {k0});
        var out := DedupFrom(rows, seen);
        assert out[0] == rows[0] && out[1..] == DedupFrom(rows[1..], seen + {k0});
      }
    }
  }

  /** A row's key was seen before it iff it is not the first occurrence. */
  lemma SeenIffRepeat(rows: seq<Row>, k: nat)
    requires k < |rows|
    ensures KeyOf(rows[k]) in KeySet(rows[..k]) <==> !IsFirst(rows, k)
  {
    if KeyOf(rows[k]) in KeySet(rows[..k]) {
      var j :| 0 <= j < k && KeyOf(rows[..k][j]) == KeyOf(rows[k]);
      assert KeyOf(rows[j]) == KeyOf(rows[k]);
    }
    if !IsFirst(rows, k) {
      var j :| 0 <= j < k && KeyOf(rows[j]) == KeyOf(rows[k]);
      assert KeyOf(rows[..k][j]) in KeySet(rows[..k]);
    }
  }

  /** Scanning `rows[k..]` with the keys of `rows[..k]` already seen keeps
      exactly the first occurrences of the whole table that lie in `rows[k..]`. */
  lemma {:induction false} DedupIsFirsts(rows: seq<Row>, k: nat)
    requires k <= |rows|
    ensures DedupFrom(rows[k..], KeySet(rows[..k])) == FirstsFrom(rows, k)
    decreases |rows| - k
  {
    if k < |rows| {
      var rest, seen := rows[k..], KeySet(rows[..k]);
      assert rest[0] == rows[k] && rest[1..] == rows[k + 1..];
      SeenIffRepeat(rows, k);
      DedupIsFirsts(rows, k + 1);
      if IsFirst(rows, k) {
        KeySetSnoc(rows, k);
        assert DedupFrom(rest, seen) == [rows[k]] + DedupFrom(rows[k + 1..], KeySet(rows[..k + 1]));
      } else {
        assert KeySet(rows[..k + 1]) == seen by {
          KeySetSnoc(rows, k);
        }
        assert DedupFrom(rest, seen) == DedupFrom(rows[k + 1..], KeySet(rows[..k + 1]));
      }
    }
  }

  /** The result is the table's first occurrences, in table order. */
  lemma DropDuplicatesFirsts(rows: seq<Row>)
    ensures DropDuplicates(rows) == FirstsFrom(rows, 0)
  {
    DedupIsFirsts(rows, 0);
    assert rows[0..] == rows;
    assert KeySet(rows[..0]) == {};
  }

  /** `drop_duplicates` leaves no two rows with one key, loses no key, and
      only removes rows. */
  lemma DropDuplicatesSpec(rows: seq<Row>)
    ensures Distinct(DropDuplicates(rows))
    ensures KeySet(DropDuplicates(rows)) == KeySet(rows)
    ensures IsSubsequence(DropDuplicates(rows), rows)
  {
    DedupKeys(rows, {});
    DedupSubsequence(rows, {});
  }

  /** Rows whose keys are distinct and unseen all survive the scan. */
  lemma {:induction false} DedupKeepsDistinct(rows: seq<Row>, seen: set<Key>)
    requires Distinct(rows) && KeySet(rows) !! seen
    ensures DedupFrom(rows, seen) == rows
    decreases |rows|
  {
    if |rows| > 0 {
      var k0 := KeyOf(rows[0]);
      KeySetCons(rows);
      assert k0 in KeySet(rows);
      assert Distinct(rows[1..]) by {
        forall i, j | 0 <= i < j < |rows[1..]|
          ensures KeyOf(rows[1..][i]) != KeyOf(rows[1..][j])
        {
          assert rows[1..][i] == rows[i + 1] && rows[1..][j] == rows[j + 1];
        }
      }
      forall key | key in KeySet(rows[1..])
        ensures key != k0
      {
        var i :| 0 <= i < |rows[1..]| && KeyOf(rows[1..][i]) == key;
        assert rows[1..][i] == rows[i + 1];
      }
      DedupKeepsDistinct(rows[1..], seen + {k0});
      assert rows == [rows[0]] + rows[1..];
    }
  }

  /** Dropping duplicates twice is dropping them once. */
  lemma DropDuplicatesIdempotent(rows: seq<Row>)
    ensures DropDuplicates(DropDuplicates(rows)) == DropDuplicates(rows)
  {
    DedupKeys(rows, {});
    DedupKeepsDistinct(DropDuplicates(rows), {});
  }
}
