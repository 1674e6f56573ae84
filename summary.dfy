/**
 * `collect_stats`: drain the workers' maps, concatenate their company lists
 * key by key, and emit one statistics row per (product, year).
 */
module Summary {
  import opened Basics
  import opened Grouping
  import opened Share

  /** `(product, year, len(companies), len(set(companies)), most_common(companies))`. */
  datatype StatRow = StatRow(product: string, year: int, total: nat, distinct: nat, share: nat)

  /** `set(companies)`. */
  function Distinct(cs: seq<string>): set<string>
  {
    set c | c in cs
  }

  lemma {:induction false} DistinctAtMostLength(cs: seq<string>)
    ensures |Distinct(cs)| <= |cs|
  {
    if cs != [] {
      DistinctAtMostLength(cs[1..]);
      assert Distinct(cs) == {cs[0]} + Distinct(cs[1..]);
    }
  }

  /**
   * The row of one (product, year) group. Its list is never empty (keys are
   * only created with a company), so `most_common` cannot raise here.
   */
  function StatOf(p: string, y: int, cs: seq<string>): (row: StatRow)
    requires cs != []
    ensures row.product == p && row.year == y
    ensures row.total == |cs|
    ensures 1 <= row.distinct <= row.total
    ensures row.share <= 100
  {
    DistinctAtMostLength(cs);
    assert cs[0] in Distinct(cs);
    StatRow(p, y, |cs|, |Distinct(cs)|, MostCommon(cs))
  }

  /** Two complaints, both against the same company: one company, share 100. */
  lemma SameCompanyTwiceScenario()
    ensures StatOf("loans", 2020, ["acme", "acme"]) == StatRow("loans", 2020, 2, 1, 100)
  {
    AllSameIsHundred(["acme", "acme"]);
    assert Distinct(["acme", "acme"]) == {"acme"};
  }

  /** Companies a, a, b: three complaints, two companies, share round(200/3) = 67. */
  lemma TwoThirdsScenario()
    ensures StatOf("p", 2020, ["a", "a", "b"]) == StatRow("p", 2020, 3, 2, 67)
  {
    var cs := ["a", "a", "b"];
    assert multiset(cs) == multiset{"a", "a", "b"};
    assert HighestCount(cs) == 2 by {
      assert multiset(cs)["a"] == 2 && multiset(cs)["b"] == 1;
      assert forall x :: x in cs ==> x == "a" || x == "b";
    }
    RoundHalfEvenUnique(200, 3, 67);
    assert Distinct(cs) == {"a", "b"};
  }

  /** A group's row depends only on how often each company occurs, not on the order of its list. */
  lemma StatOfPermutation(p: string, y: int, a: seq<string>, b: seq<string>)
    requires a != [] && multiset(a) == multiset(b)
    ensures b != [] && StatOf(p, y, a) == StatOf(p, y, b)
  {
    assert |a| == |multiset(a)| == |multiset(b)| == |b|;
    assert Distinct(a) == Distinct(b) by {
      forall c ensures c in Distinct(a) <==> c in Distinct(b) {
        assert c in a <==> c in multiset(a);
        assert c in b <==> c in multiset(b);
      }
    }
    MostCommonOfPermutation(a, b);
  }

  function Years(d: PartialMap, p: string): set<int>
  {
    if p in d then d[p].Keys else {}
  }

  /**
   * The map after one worker's map is drained into `acc`: every key of
   * either, and under each the accumulated list followed by the worker's.
   */
  function MergeInto(acc: PartialMap, d: PartialMap): (r: PartialMap)
    requires WellFormed(acc) && WellFormed(d)
    ensures WellFormed(r)
    ensures forall p, y :: Lookup(r, p, y) == Lookup(acc, p, y) + Lookup(d, p, y)
  {
    var r := map p | p in acc.Keys + d.Keys ::
               map y | y in Years(acc, p) + Years(d, p) :: Lookup(acc, p, y) + Lookup(d, p, y);
    assert WellFormed(r) by {
      forall p | p in r
        ensures r[p].Keys != {}
      {
        if p in acc {
          var y := Pick(acc[p].Keys);
          assert y in r[p];
        } else {
          var y := Pick(d[p].Keys);
          assert y in r[p];
        }
      }
    }
    r
  }

  /** The lists of (p, y) across a queue of worker maps, concatenated in drain order. */
  function Gathered(queue: seq<PartialMap>, p: string, y: int): seq<string>
  {
    if queue == [] then [] else Lookup(queue[0], p, y) + Gathered(queue[1..], p, y)
  }

  lemma {:induction false} GatheredConcat(a: seq<PartialMap>, b: seq<PartialMap>, p: string, y: int)
    ensures Gathered(a + b, p, y) == Gathered(a, p, y) + Gathered(b, p, y)
  {
    if a == [] {
      assert a + b == b;
    } else {
      assert (a + b)[1..] == a[1..] + b;
      GatheredConcat(a[1..], b, p, y);
    }
  }

  lemma GatheredLast(queue: seq<PartialMap>)
    requires queue != []
    ensures forall p, y :: Gathered(queue, p, y) == Gathered(queue[..|queue| - 1], p, y) + Lookup(queue[|queue| - 1], p, y)
  {
    var n := |queue| - 1;
    assert queue == queue[..n] + [queue[n]];
    forall p, y ensures Gathered(queue, p, y) == Gathered(queue[..n], p, y) + Lookup(queue[n], p, y) {
      GatheredConcat(queue[..n], [queue[n]], p, y);
    }
  }

  predicate AllWellFormed(queue: seq<PartialMap>)
  {
    forall i :: 0 <= i < |queue| ==> WellFormed(queue[i])
  }

  /**
   * The map `collect_stats` holds once the queue is empty: under each key,
   * the concatenation, in drain order, of that key's lists in every worker map.
   */
  function MergeAll(queue: seq<PartialMap>): (d: PartialMap)
    requires AllWellFormed(queue)
    ensures WellFormed(d)
    ensures forall p, y :: Lookup(d, p, y) == Gathered(queue, p, y)
  {
    if queue == [] then map[]
    else
      GatheredLast(queue);
      MergeInto(MergeAll(queue[..|queue| - 1]), queue[|queue| - 1])
  }

  /** Each list's length is the sum of the workers' list lengths. */
  lemma {:induction false} GatheredLength(queue: seq<PartialMap>, p: string, y: int)
    ensures |Gathered(queue, p, y)| == SumLengths(queue, p, y)
  {
    if queue != [] {
      GatheredLength(queue[1..], p, y);
    }
  }

  function SumLengths(queue: seq<PartialMap>, p: string, y: int): nat
  {
    if queue == [] then 0 else |Lookup(queue[0], p, y)| + SumLengths(queue[1..], p, y)
  }

  /** Draining the same worker maps in another order gives each key the same multiset of companies. */
  lemma {:induction false} GatheredPermutation(a: seq<PartialMap>, b: seq<PartialMap>, p: string, y: int)
    requires multiset(a) == multiset(b)
    ensures multiset(Gathered(a, p, y)) == multiset(Gathered(b, p, y))
    decreases |a|
  {
    if a == [] {
      assert |b| == |multiset(b)| == 0;
    } else {
      var n := |a| - 1;
      var x := a[n];
      assert x in multiset(b);
      var j :| 0 <= j < |b| && b[j] == x;
      var rest := b[..j] + b[j + 1..];
      RemoveMatching(a, b, j);
      GatheredPermutation(a[..n], rest, p, y);
      GatheredSplitAt(a, n, p, y);
      GatheredSplitAt(b, j, p, y);
      GatheredConcat(b[..j], b[j + 1..], p, y);
    }
  }

  /** Removing the last element of `a` and a matching element of `b` keeps the multisets equal. */
  lemma RemoveMatching<T>(a: seq<T>, b: seq<T>, j: nat)
    requires a != [] && multiset(a) == multiset(b)
    requires j < |b| && b[j] == a[|a| - 1]
    ensures multiset(a[..|a| - 1]) == multiset(b[..j] + b[j + 1..])
  {
    var n, x := |a| - 1, a[|a| - 1];
    assert a == a[..n] + [x];
    assert b == b[..j] + [x] + b[j + 1..];
    assert multiset(a[..n]) == multiset(a) - multiset{x};
    assert multiset(b[..j] + b[j + 1..]) == multiset(b) - multiset{x};
  }

  lemma GatheredSplitAt(q: seq<PartialMap>, j: nat, p: string, y: int)
    requires j < |q|
    ensures Gathered(q, p, y) == Gathered(q[..j], p, y) + Lookup(q[j], p, y) + Gathered(q[j + 1..], p, y)
  {
    var tail := [q[j]] + q[j + 1..];
    assert q == q[..j] + tail;
    GatheredConcat(q[..j], tail, p, y);
    assert tail[1..] == q[j + 1..];
    assert Gathered(tail, p, y) == Lookup(q[j], p, y) + Gathered(q[j + 1..], p, y);
  }

  function Key(r: StatRow): (string, int)
  {
    (r.product, r.year)
  }

  /** The (product, year) keys of a list of rows. */
  function KeysOf(rows: seq<StatRow>): set<(string, int)>
  {
    if rows == [] then {} else KeysOf(rows[..|rows| - 1]) + {Key(rows[|rows| - 1])}
  }

  lemma {:induction false} KeysOfMember(rows: seq<StatRow>, k: (string, int))
    requires k in KeysOf(rows)
    ensures exists i :: 0 <= i < |rows| && Key(rows[i]) == k
  {
    var n := |rows| - 1;
    if Key(rows[n]) != k {
      KeysOfMember(rows[..n], k);
      var i :| 0 <= i < n && Key(rows[..n][i]) == k;
      assert Key(rows[i]) == k;
    }
  }

  predicate KeysUnique(rows: seq<StatRow>)
  {
    forall i, j :: 0 <= i < j < |rows| ==> Key(rows[i]) != Key(rows[j])
  }

  /**
   * `rows` is a faithful summary of `merged`: each row is the statistics of
   * a key of `merged`, every key of `merged` has a row, and no key has two.
   */
  ghost predicate Summarizes(merged: PartialMap, rows: seq<StatRow>)
    requires WellFormed(merged)
  {
    && (forall r :: r in rows ==> Has(merged, r.product, r.year) && r == StatOf(r.product, r.year, merged[r.product][r.year]))
    && (forall p, y :: Has(merged, p, y) ==> (p, y) in KeysOf(rows))
    && KeysUnique(rows)
  }

  /**
   * `collect_stats`: drain the queue (here the worker maps in the order they
   * come out), concatenating lists key by key, then emit one row per key.
   * Python's dict iteration order is not modelled: keys are taken in any
   * order, which `main`'s sort makes irrelevant.
   */
  method CollectStats(queue: seq<PartialMap>) returns (stats: seq<StatRow>)
    requires AllWellFormed(queue)
    ensures Summarizes(MergeAll(queue), stats)
    ensures forall r :: r in stats ==> 1 <= r.distinct <= r.total && r.share <= 100
  {
    var dataDict: PartialMap := map[];
    var i := 0;
    while i < |queue|
      invariant 0 <= i <= |queue|
      invariant WellFormed(dataDict)
      invariant dataDict == MergeAll(queue[..i])
    {
      var data := queue[i];
      dataDict := DrainOne(dataDict, data);
      assert queue[..i + 1][..i] == queue[..i];
      i := i + 1;
    }
    assert queue[..i] == queue;
    stats := EmitRows(dataDict);
  }

  /** The body of the drain loop of `collect_stats`: fold one worker's map into `dataDict`, key by key. */
  method DrainOne(dataDict: PartialMap, data: PartialMap) returns (merged: PartialMap)
    requires WellFormed(dataDict) && WellFormed(data)
    ensures merged == MergeInto(dataDict, data)
  {
    merged := dataDict;
    var products := data.Keys;
    while products != {}
      invariant products <= data.Keys
      invariant WellFormed(merged)
      invariant forall p, y :: Lookup(merged, p, y) == Lookup(dataDict, p, y) + (if p in products then [] else Lookup(data, p, y))
      decreases products
    {
      // Never taken: this only tells the verifier the set is non-empty before `:|`.
      if forall z :: z !in products {
        assert false;
      }
      var product :| product in products;
      var yearCompanies := data[product];
      var years := yearCompanies.Keys;
      ghost var mid := merged;
      while years != {}
        invariant years <= yearCompanies.Keys
        invariant WellFormed(merged)
        invariant forall p, y :: Lookup(merged, p, y) ==
                    Lookup(mid, p, y) + (if p == product && y in yearCompanies && y !in years then yearCompanies[y] else [])
        decreases years
      {
        // Never taken: this only tells the verifier the set is non-empty before `:|`.
        if forall z :: z !in years {
          assert false;
        }
        var year :| year in years;
        merged := Append(merged, product, year, yearCompanies[year]);
        years := years - {year};
      }
      products := products - {product};
    }
    SameLookupsSameMap(merged, MergeInto(dataDict, data));
  }

  /** The second loop of `collect_stats`: one row per (product, year) of the merged map. */
  method EmitRows(dataDict: PartialMap) returns (stats: seq<StatRow>)
    requires WellFormed(dataDict)
    ensures Summarizes(dataDict, stats)
    ensures forall r :: r in stats ==> 1 <= r.distinct <= r.total && r.share <= 100
  {
    stats := [];
    var products := dataDict.Keys;
    while products != {}
      invariant products <= dataDict.Keys
      invariant forall r :: r in stats ==>
                  (Has(dataDict, r.product, r.year) && r.product !in products
                   && r == StatOf(r.product, r.year, dataDict[r.product][r.year]))
      invariant forall p, y :: Has(dataDict, p, y) && p !in products ==> (p, y) in KeysOf(stats)
      invariant KeysUnique(stats)
      decreases products
    {
      // Never taken: this only tells the verifier the set is non-empty before `:|`.
      if forall z :: z !in products {
        assert false;
      }
      var product :| product in products;
      var yearCompanies := dataDict[product];
      var years := yearCompanies.Keys;
      while years != {}
        invariant years <= yearCompanies.Keys
        invariant forall r :: r in stats ==>
                    (Has(dataDict, r.product, r.year)
                     && (r.product !in products || (r.product == product && r.year !in years))
                     && r == StatOf(r.product, r.year, dataDict[r.product][r.year]))
        invariant forall p, y :: Has(dataDict, p, y) && (p !in products || (p == product && y !in years)) ==> (p, y) in KeysOf(stats)
        invariant KeysUnique(stats)
        decreases years
      {
        // Never taken: this only tells the verifier the set is non-empty before `:|`.
        if forall z :: z !in years {
          assert false;
        }
        var year :| year in years;
        var row := StatOf(product, year, yearCompanies[year]);
        assert (stats + [row])[..|stats|] == stats;
        stats := stats + [row];
        years := years - {year};
      }
      products := products - {product};
    }
  }

  lemma {:induction false} KeysOfContains(rows: seq<StatRow>, i: nat)
    requires i < |rows|
    ensures Key(rows[i]) in KeysOf(rows)
  {
    var n := |rows| - 1;
    if i < n {
      KeysOfContains(rows[..n], i);
    }
  }

  /** Rows with pairwise different keys occur at most once each. */
  lemma {:induction false} UniqueKeysCount(rows: seq<StatRow>, x: StatRow)
    requires KeysUnique(rows)
    ensures multiset(rows)[x] == if x in rows then 1 else 0
  {
    if rows != [] {
      var t := rows[1..];
      assert rows == [rows[0]] + t;
      assert KeysUnique(t) by {
        forall i, j | 0 <= i < j < |t| ensures Key(t[i]) != Key(t[j]) {
          assert t[i] == rows[i + 1] && t[j] == rows[j + 1];
        }
      }
      UniqueKeysCount(t, x);
    }
  }

  /** A value found at two positions occurs at least twice. */
  lemma TwoPositions(rows: seq<StatRow>, i: nat, j: nat)
    requires i < j < |rows| && rows[i] == rows[j]
    ensures multiset(rows)[rows[i]] >= 2
  {
    assert rows == rows[..j] + rows[j..];
    assert rows[i] in rows[..j];
    assert rows[j] in rows[j..];
  }

  /** Reordering the rows of a summary leaves a summary of the same map. */
  lemma PermutationKeepsSummary(merged: PartialMap, s: seq<StatRow>, r: seq<StatRow>)
    requires WellFormed(merged) && Summarizes(merged, s) && multiset(r) == multiset(s)
    ensures Summarizes(merged, r)
  {
    forall row | row in r ensures row in s {
      assert row in multiset(r);
    }
    forall p, y | Has(merged, p, y) ensures (p, y) in KeysOf(r) {
      KeysOfMember(s, (p, y));
      var i :| 0 <= i < |s| && Key(s[i]) == (p, y);
      assert s[i] in multiset(r);
      var j :| 0 <= j < |r| && r[j] == s[i];
      KeysOfContains(r, j);
    }
    forall i, j | 0 <= i < j < |r| ensures Key(r[i]) != Key(r[j]) {
      if Key(r[i]) == Key(r[j]) {
        assert r[i] in s && r[j] in s;
        TwoPositions(r, i, j);
        UniqueKeysCount(s, r[i]);
        assert false;
      }
    }
  }

  /** Two summaries of one map hold the same rows, each once. */
  lemma SummariesAgree(merged: PartialMap, s1: seq<StatRow>, s2: seq<StatRow>)
    requires WellFormed(merged) && Summarizes(merged, s1) && Summarizes(merged, s2)
    ensures multiset(s1) == multiset(s2)
  {
    forall x ensures multiset(s1)[x] == multiset(s2)[x] {
      SummaryCount(merged, s1, s2, x);
    }
  }

  lemma SummaryCount(merged: PartialMap, s1: seq<StatRow>, s2: seq<StatRow>, x: StatRow)
    requires WellFormed(merged) && Summarizes(merged, s1) && Summarizes(merged, s2)
    ensures multiset(s1)[x] == multiset(s2)[x]
  {
    if x in s1 {
      SummaryMember(merged, s1, s2, x);
    }
    if x in s2 {
      SummaryMember(merged, s2, s1, x);
    }
    UniqueKeysCount(s1, x);
    UniqueKeysCount(s2, x);
  }

  lemma SummaryMember(merged: PartialMap, s1: seq<StatRow>, s2: seq<StatRow>, x: StatRow)
    requires WellFormed(merged) && Summarizes(merged, s1) && Summarizes(merged, s2)
    requires x in s1
    ensures x in s2
  {
    KeysOfMember(s2, Key(x));
    var j :| 0 <= j < |s2| && Key(s2[j]) == Key(x);
    assert s2[j] in s2;
  }

  /**
   * Draining the same worker maps in another order changes the merged lists
   * only up to order, so a summary of one drain is a summary of the other.
   */
  lemma {:induction false} DrainOrderKeepsSummary(q1: seq<PartialMap>, q2: seq<PartialMap>, rows: seq<StatRow>)
    requires AllWellFormed(q1) && AllWellFormed(q2) && multiset(q1) == multiset(q2)
    requires Summarizes(MergeAll(q1), rows)
    ensures Summarizes(MergeAll(q2), rows)
  {
    var m1, m2 := MergeAll(q1), MergeAll(q2);
    forall p, y ensures Has(m1, p, y) <==> Has(m2, p, y)
      ensures Has(m1, p, y) ==> StatOf(p, y, m1[p][y]) == StatOf(p, y, m2[p][y])
    {
      GatheredPermutation(q1, q2, p, y);
      HasIffNonEmpty(m1, p, y);
      HasIffNonEmpty(m2, p, y);
      if Has(m1, p, y) {
        assert |Gathered(q1, p, y)| == |multiset(Gathered(q1, p, y))|;
        assert Has(m2, p, y);
        StatOfPermutation(p, y, m1[p][y], m2[p][y]);
      }
    }
  }
}
