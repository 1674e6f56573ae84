/**
 * `stats.sort()` in `main`: Python orders the row tuples lexicographically,
 * strings by code point. The sort itself is a library call; it is modelled
 * by an insertion sort whose result is sorted and a permutation of its input.
 */
module Ordering {
  import opened Grouping
  import opened Summary

  /** `a` is a proper prefix of `b`. */
  predicate ProperPrefix(a: string, b: string)
  {
    |a| < |b| && a == b[..|a|]
  }

  /** `a` and `b` agree before position i and differ there, `a` being smaller. */
  predicate SmallerAt(a: string, b: string, i: nat)
  {
    i < |a| && i < |b| && a[..i] == b[..i] && a[i] < b[i]
  }

  /** Python's definition of `a < b` on strings: a proper prefix, or smaller at the first difference. */
  ghost predicate Lexicographic(a: string, b: string)
  {
    ProperPrefix(a, b) || exists i: nat :: SmallerAt(a, b, i)
  }

  /** Comparing two non-empty strings is decided by their heads, or by their tails when the heads agree. */
  lemma LexicographicStep(a: string, b: string)
    requires a != [] && b != []
    ensures Lexicographic(a, b) <==> if a[0] != b[0] then a[0] < b[0] else Lexicographic(a[1..], b[1..])
  {
    if a[0] != b[0] {
      if a[0] < b[0] {
        assert SmallerAt(a, b, 0);
      }
    } else {
      if ProperPrefix(a, b) {
        assert a[1..] == b[1..][..|a[1..]|];
      }
      if ProperPrefix(a[1..], b[1..]) {
        assert a == [a[0]] + a[1..] && b[..|a|] == [b[0]] + b[1..][..|a[1..]|];
      }
      forall i: nat | SmallerAt(a, b, i) ensures SmallerAt(a[1..], b[1..], i - 1) {
        assert i > 0;
        assert a[1..][..i - 1] == a[..i][1..] && b[1..][..i - 1] == b[..i][1..];
      }
      forall i: nat | SmallerAt(a[1..], b[1..], i) ensures SmallerAt(a, b, i + 1) {
        assert a[..i + 1] == [a[0]] + a[1..][..i] && b[..i + 1] == [b[0]] + b[1..][..i];
      }
      if Lexicographic(a, b) && !ProperPrefix(a, b) {
        var i: nat :| SmallerAt(a, b, i);
        assert SmallerAt(a[1..], b[1..], i - 1);
      }
      if Lexicographic(a[1..], b[1..]) && !ProperPrefix(a[1..], b[1..]) {
        var i: nat :| SmallerAt(a[1..], b[1..], i);
        assert SmallerAt(a, b, i + 1);
      }
    }
  }

  /** Python's `a < b` on strings, compared character by character. */
  predicate StrLess(a: string, b: string)
    ensures StrLess(a, b) <==> Lexicographic(a, b)
  {
    if a == [] then
      assert b != [] ==> ProperPrefix(a, b);
      b != []
    else if b == [] then false
    else
      LexicographicStep(a, b);
      if a[0] != b[0] then a[0] < b[0]
      else StrLess(a[1..], b[1..])
  }

  lemma {:induction false} StrLessIrreflexive(a: string)
    ensures !StrLess(a, a)
  {
    if a != [] {
      StrLessIrreflexive(a[1..]);
    }
  }

  lemma {:induction false} StrLessTransitive(a: string, b: string, c: string)
    requires StrLess(a, b) && StrLess(b, c)
    ensures StrLess(a, c)
  {
    if a != [] && b != [] && c != [] && a[0] == b[0] == c[0] {
      StrLessTransitive(a[1..], b[1..], c[1..]);
    }
  }

  lemma {:induction false} StrLessTotal(a: string, b: string)
    ensures a == b || StrLess(a, b) || StrLess(b, a)
  {
    if a != [] && b != [] && a[0] == b[0] {
      StrLessTotal(a[1..], b[1..]);
      if a[1..] == b[1..] {
        assert a == [a[0]] + a[1..] && b == [b[0]] + b[1..];
      }
    }
  }

  lemma StrLessAsymmetric(a: string, b: string)
    requires StrLess(a, b)
    ensures !StrLess(b, a)
  {
    if StrLess(b, a) {
      StrLessTransitive(a, b, a);
      StrLessIrreflexive(a);
    }
  }

  /** Python's `<` on the tuple (product, year, total, distinct, share); no row is below itself. */
  predicate RowLess(r: StatRow, s: StatRow)
    ensures RowLess(r, s) ==> r != s
  {
    StrLessIrreflexive(r.product);
    || StrLess(r.product, s.product)
    || (r.product == s.product && r.year < s.year)
    || (r.product == s.product && r.year == s.year && r.total < s.total)
    || (r.product == s.product && r.year == s.year && r.total == s.total && r.distinct < s.distinct)
    || (r.product == s.product && r.year == s.year && r.total == s.total && r.distinct == s.distinct && r.share < s.share)
  }

  predicate RowLessEq(r: StatRow, s: StatRow)
  {
    r == s || RowLess(r, s)
  }

  lemma RowLessEqTotal(r: StatRow, s: StatRow)
    ensures RowLessEq(r, s) || RowLessEq(s, r)
  {
    StrLessTotal(r.product, s.product);
  }

  lemma RowLessEqAntisymmetric(r: StatRow, s: StatRow)
    requires RowLessEq(r, s) && RowLessEq(s, r)
    ensures r == s
  {
    if r != s {
      if StrLess(r.product, s.product) {
        StrLessAsymmetric(r.product, s.product);
      } else if StrLess(s.product, r.product) {
        StrLessAsymmetric(s.product, r.product);
      }
    }
  }

  lemma RowLessEqTransitive(r: StatRow, s: StatRow, t: StatRow)
    requires RowLessEq(r, s) && RowLessEq(s, t)
    ensures RowLessEq(r, t)
  {
    if StrLess(r.product, s.product) && StrLess(s.product, t.product) {
      StrLessTransitive(r.product, s.product, t.product);
    }
  }

  predicate Sorted(rows: seq<StatRow>)
  {
    forall i, j :: 0 <= i < j < |rows| ==> RowLessEq(rows[i], rows[j])
  }

  lemma ConsSorted(x: StatRow, rows: seq<StatRow>)
    requires Sorted(rows)
    requires forall j :: 0 <= j < |rows| ==> RowLessEq(x, rows[j])
    ensures Sorted([x] + rows)
  {
    var r := [x] + rows;
    forall i, j | 0 <= i < j < |r| ensures RowLessEq(r[i], r[j]) {
      if i > 0 {
        assert r[i] == rows[i - 1] && r[j] == rows[j - 1];
      }
    }
  }

  /** Insert `x` into the sorted `rows`, before the first row it does not exceed. */
  function Insert(x: StatRow, rows: seq<StatRow>): (r: seq<StatRow>)
    requires Sorted(rows)
    ensures Sorted(r)
    ensures multiset(r) == multiset(rows) + multiset{x}
  {
    if rows == [] then [x]
    else if RowLessEq(x, rows[0]) then
      InsertFirst(x, rows);
      [x] + rows
    else
      var tail := Insert(x, rows[1..]);
      InsertLater(x, rows, tail);
      [rows[0]] + tail
  }

  lemma InsertFirst(x: StatRow, rows: seq<StatRow>)
    requires Sorted(rows) && rows != [] && RowLessEq(x, rows[0])
    ensures Sorted([x] + rows)
    ensures multiset([x] + rows) == multiset(rows) + multiset{x}
  {
    forall j | 0 <= j < |rows| ensures RowLessEq(x, rows[j]) {
      if j > 0 {
        RowLessEqTransitive(x, rows[0], rows[j]);
      }
    }
    ConsSorted(x, rows);
  }

  lemma InsertLater(x: StatRow, rows: seq<StatRow>, tail: seq<StatRow>)
    requires Sorted(rows) && rows != [] && !RowLessEq(x, rows[0])
    requires Sorted(tail) && multiset(tail) == multiset(rows[1..]) + multiset{x}
    ensures Sorted([rows[0]] + tail)
    ensures multiset([rows[0]] + tail) == multiset(rows) + multiset{x}
  {
    RowLessEqTotal(x, rows[0]);
    forall j | 0 <= j < |tail| ensures RowLessEq(rows[0], tail[j]) {
      assert tail[j] in multiset(tail);
      if tail[j] != x {
        assert tail[j] in multiset(rows[1..]);
        var k :| 0 <= k < |rows[1..]| && rows[1..][k] == tail[j];
        assert rows[k + 1] == tail[j];
      }
    }
    ConsSorted(rows[0], tail);
    assert rows == [rows[0]] + rows[1..];
  }

  /** `stats.sort()`: the rows in ascending order, as a permutation of the input. */
  function SortRows(rows: seq<StatRow>): (r: seq<StatRow>)
    ensures Sorted(r)
    ensures multiset(r) == multiset(rows)
  {
    if rows == [] then []
    else
      assert rows == [rows[0]] + rows[1..];
      Insert(rows[0], SortRows(rows[1..]))
  }

  /** A multiset of rows has exactly one sorted arrangement. */
  lemma {:induction false} SortedUnique(a: seq<StatRow>, b: seq<StatRow>)
    requires Sorted(a) && Sorted(b) && multiset(a) == multiset(b)
    ensures a == b
  {
    assert |a| == |multiset(a)| == |multiset(b)| == |b|;
    if a != [] {
      assert a[0] in multiset(b) && b[0] in multiset(a);
      SortedHeadLeast(b, a[0]);
      SortedHeadLeast(a, b[0]);
      RowLessEqAntisymmetric(a[0], b[0]);
      SortedTail(a);
      SortedTail(b);
      SortedUnique(a[1..], b[1..]);
    }
  }

  /** The first row of a sorted list is at most every row in it. */
  lemma SortedHeadLeast(a: seq<StatRow>, x: StatRow)
    requires Sorted(a) && x in multiset(a)
    ensures RowLessEq(a[0], x)
  {
    var j :| 0 <= j < |a| && a[j] == x;
  }

  lemma SortedTail(a: seq<StatRow>)
    requires Sorted(a) && a != []
    ensures Sorted(a[1..])
    ensures multiset(a[1..]) == multiset(a) - multiset{a[0]}
  {
    assert a == [a[0]] + a[1..];
  }

  /**
   * The sorted output of `main` does not depend on the order in which the
   * worker maps came off the queue, nor on the order `collect_stats` walked
   * the dictionaries.
   */
  lemma DrainOrderIrrelevant(q1: seq<PartialMap>, q2: seq<PartialMap>, s1: seq<StatRow>, s2: seq<StatRow>)
    requires AllWellFormed(q1) && AllWellFormed(q2) && multiset(q1) == multiset(q2)
    requires Summarizes(MergeAll(q1), s1) && Summarizes(MergeAll(q2), s2)
    ensures SortRows(s1) == SortRows(s2)
  {
    DrainOrderKeepsSummary(q1, q2, s1);
    SummariesAgree(MergeAll(q2), s1, s2);
    SortedUnique(SortRows(s1), SortRows(s2));
  }

  /**
   * In a sorted summary the keys strictly ascend: by product, then by year.
   * The statistics columns never decide the order.
   */
  lemma SortedSummaryByKey(merged: PartialMap, rows: seq<StatRow>)
    requires WellFormed(merged) && Summarizes(merged, rows) && Sorted(rows)
    ensures forall i, j :: 0 <= i < j < |rows| ==>
      StrLess(rows[i].product, rows[j].product) || (rows[i].product == rows[j].product && rows[i].year < rows[j].year)
  {
    forall i, j | 0 <= i < j < |rows|
      ensures StrLess(rows[i].product, rows[j].product) || (rows[i].product == rows[j].product && rows[i].year < rows[j].year)
    {
      assert RowLessEq(rows[i], rows[j]);
      assert Key(rows[i]) != Key(rows[j]);
    }
  }

  /** A map has one sorted summary, whichever order its keys were visited in. */
  lemma SortedSummaryUnique(merged: PartialMap, a: seq<StatRow>, b: seq<StatRow>)
    requires WellFormed(merged) && Summarizes(merged, a) && Sorted(a) && Summarizes(merged, b) && Sorted(b)
    ensures a == b
  {
    SummariesAgree(merged, a, b);
    SortedUnique(a, b);
  }
}
