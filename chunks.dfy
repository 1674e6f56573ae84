/**
 * `read_chunk`: one worker's pass over the rows [start, end) of the file,
 * folding every usable row into a private product -> year -> companies map,
 * which it publishes once at the end.
 */
module ChunkReader {
  import opened Basics
  import opened Text
  import opened Records
  import opened Grouping

  /** One complaint as it is filed into the map: lower-cased product and company, and the year. */
  datatype Record = Record(product: string, year: int, company: string)

  /**
   * What lines 98-101 do with one row: raise (calling `.lower()` on a None
   * that parse_list left behind), skip it (the `all(...)` test fails), or
   * keep a record.
   */
  datatype RowOutcome = Crash | Skip | Keep(rec: Record)

  /** Python truthiness of `year`: None and 0 are false. */
  predicate Truthy(year: Option<int>)
  {
    year.Some? && year.value != 0
  }

  function Classify(line: seq<string>, cols: Columns): (o: RowOutcome)
    ensures o == Crash <==>
              !(cols.date < |line| && ValidYmd(line[cols.date]) && cols.product < |line| && cols.company < |line|)
    ensures o.Keep? <==> o != Crash && line[cols.product] != [] && line[cols.company] != []
    ensures o.Keep? ==> o.rec == Record(Lower(line[cols.product]), YearOf(line[cols.date]), Lower(line[cols.company]))
  {
    var parsed := ParseList(line, cols.date, cols.product, cols.company);
    if parsed.product.None? || parsed.company.None? then Crash
    else
      var product := Lower(parsed.product.value);
      var company := Lower(parsed.company.value);
      if product != [] && Truthy(parsed.year) && company != [] then Keep(Record(product, parsed.year.value, company))
      else Skip
  }

  predicate InRange(w: (nat, nat), i: int)
  {
    w.0 <= i < w.1
  }

  /** The row indices `islice(rows, start, end)` visits over a file of n rows. */
  function Window(n: nat, start: nat, end: nat): (w: (nat, nat))
    ensures w.0 <= w.1 <= n
    ensures forall i :: InRange(w, i) <==> start <= i < end && i < n
  {
    var hi := Min(end, n);
    (Min(start, hi), hi)
  }

  /** Some row in rows[lo..hi) makes read_chunk raise. */
  predicate Crashes(rows: seq<seq<string>>, lo: nat, hi: nat, cols: Columns)
    requires lo <= hi <= |rows|
  {
    exists i :: lo <= i < hi && Classify(rows[i], cols) == Crash
  }

  /** The records of rows[lo..hi) that pass the filter, in file order. */
  function Kept(rows: seq<seq<string>>, lo: nat, hi: nat, cols: Columns): seq<Record>
    requires lo <= hi <= |rows|
    decreases hi - lo
  {
    if lo == hi then []
    else
      (match Classify(rows[lo], cols) case Keep(r) => [r] case _ => []) + Kept(rows, lo + 1, hi, cols)
  }

  /** The kept records of two adjacent stretches of rows are those of their union. */
  lemma {:induction false} KeptSplit(rows: seq<seq<string>>, lo: nat, mid: nat, hi: nat, cols: Columns)
    requires lo <= mid <= hi <= |rows|
    ensures Kept(rows, lo, hi, cols) == Kept(rows, lo, mid, cols) + Kept(rows, mid, hi, cols)
    decreases mid - lo
  {
    if lo < mid {
      KeptSplit(rows, lo + 1, mid, hi, cols);
    }
  }

  lemma KeptStep(rows: seq<seq<string>>, lo: nat, i: nat, cols: Columns)
    requires lo <= i < |rows|
    ensures Kept(rows, lo, i + 1, cols) ==
              Kept(rows, lo, i, cols) + (match Classify(rows[i], cols) case Keep(r) => [r] case _ => [])
  {
    KeptSplit(rows, lo, i, i + 1, cols);
  }

  /** The companies of the records filed under (p, y), in order. */
  function Bucket(recs: seq<Record>, p: string, y: int): seq<string>
  {
    if recs == [] then []
    else
      (if recs[0].product == p && recs[0].year == y then [recs[0].company] else []) + Bucket(recs[1..], p, y)
  }

  lemma {:induction false} BucketConcat(a: seq<Record>, b: seq<Record>, p: string, y: int)
    ensures Bucket(a + b, p, y) == Bucket(a, p, y) + Bucket(b, p, y)
  {
    if a == [] {
      assert a + b == b;
    } else {
      assert (a + b)[1..] == a[1..] + b;
      BucketConcat(a[1..], b, p, y);
    }
  }

  lemma BucketSnoc(recs: seq<Record>)
    requires recs != []
    ensures forall p, y :: Bucket(recs, p, y) ==
              Bucket(recs[..|recs| - 1], p, y) + Lookup(map[recs[|recs| - 1].product := map[recs[|recs| - 1].year := [recs[|recs| - 1].company]]], p, y)
  {
    var last := recs[|recs| - 1];
    assert recs == recs[..|recs| - 1] + [last];
    forall p, y
      ensures Bucket(recs, p, y) == Bucket(recs[..|recs| - 1], p, y) + Lookup(map[last.product := map[last.year := [last.company]]], p, y)
    {
      BucketConcat(recs[..|recs| - 1], [last], p, y);
    }
  }

  /**
   * The map read_chunk builds from a sequence of records: each record adds
   * its company to the list of its (product, year), and to nothing else.
   */
  function Group(recs: seq<Record>): (d: PartialMap)
    ensures WellFormed(d)
    ensures forall p, y :: Lookup(d, p, y) == Bucket(recs, p, y)
  {
    if recs == [] then map[]
    else
      var last := recs[|recs| - 1];
      BucketSnoc(recs);
      Append(Group(recs[..|recs| - 1]), last.product, last.year, [last.company])
  }

  /** Visiting one more row either files its record or leaves the map as it was. */
  lemma GroupStep(rows: seq<seq<string>>, lo: nat, i: nat, cols: Columns)
    requires lo <= i < |rows|
    ensures Group(Kept(rows, lo, i + 1, cols)) ==
              match Classify(rows[i], cols)
              case Keep(r) => Append(Group(Kept(rows, lo, i, cols)), r.product, r.year, [r.company])
              case _ => Group(Kept(rows, lo, i, cols))
  {
    var recs := Kept(rows, lo, i, cols);
    KeptStep(rows, lo, i, cols);
    match Classify(rows[i], cols)
    case Keep(r) =>
      assert (recs + [r])[..|recs|] == recs;
    case _ =>
      assert recs + [] == recs;
  }

  /**
   * What the worker for [start, end) publishes: nothing when islice rejects a
   * negative bound or when any visited row raises, otherwise the map of the
   * rows it kept.
   */
  function ChunkResult(rows: seq<seq<string>>, start: int, end: int, cols: Columns): (r: Option<PartialMap>)
    ensures r.None? <==>
              start < 0 || end < 0 || exists i :: start <= i < end && i < |rows| && Classify(rows[i], cols) == Crash
    ensures r.Some? ==> WellFormed(r.value)
    ensures 0 <= end <= start ==> r == Some(map[])
  {
    if start < 0 || end < 0 then None
    else
      var (lo, hi) := Window(|rows|, start, end);
      if Crashes(rows, lo, hi, cols) then None else Some(Group(Kept(rows, lo, hi, cols)))
  }

  lemma CrashesStep(rows: seq<seq<string>>, lo: nat, i: nat, cols: Columns)
    requires lo <= i < |rows|
    ensures Crashes(rows, lo, i + 1, cols) <==> Crashes(rows, lo, i, cols) || Classify(rows[i], cols) == Crash
  {
    if Classify(rows[i], cols) == Crash {
      assert lo <= i < i + 1;
    }
  }

  /** Widening a stretch of rows keeps any crash in it: a crash-free stretch has crash-free sub-stretches. */
  lemma CrashesWiden(rows: seq<seq<string>>, lo: nat, hi: nat, outerLo: nat, outerHi: nat, cols: Columns)
    requires outerLo <= lo <= hi <= outerHi <= |rows|
    ensures Crashes(rows, lo, hi, cols) ==> Crashes(rows, outerLo, outerHi, cols)
  {
    if Crashes(rows, lo, hi, cols) {
      var k :| lo <= k < hi && Classify(rows[k], cols) == Crash;
      assert outerLo <= k < outerHi;
    }
  }

  /**
   * `read_chunk` (rows, including the header at index 0, stand for the
   * file; the published map is the returned value, None when nothing is
   * put on the queue).
   */
  method ReadChunk(rows: seq<seq<string>>, start: int, end: int, cols: Columns) returns (published: Option<PartialMap>)
    ensures published == ChunkResult(rows, start, end, cols)
  {
    if start < 0 || end < 0 {
      return None;
    }
    var dataDict: PartialMap := map[];
    var (lo, hi) := Window(|rows|, start, end);
    var i := lo;
    while i < hi
      invariant lo <= i <= hi
      invariant !Crashes(rows, lo, i, cols)
      invariant dataDict == Group(Kept(rows, lo, i, cols))
    {
      var parsed := ParseList(rows[i], cols.date, cols.product, cols.company);
      CrashesStep(rows, lo, i, cols);
      if parsed.product.None? || parsed.company.None? {
        assert Classify(rows[i], cols) == Crash;
        CrashesWiden(rows, lo, i + 1, lo, hi, cols);
        return None;
      }
      var product := Lower(parsed.product.value);
      var company := Lower(parsed.company.value);
      GroupStep(rows, lo, i, cols);
      if product != [] && Truthy(parsed.year) && company != [] {
        assert Classify(rows[i], cols) == Keep(Record(product, parsed.year.value, company));
        dataDict := Append(dataDict, product, parsed.year.value, [company]);
      } else {
        assert Classify(rows[i], cols) == Skip;
      }
      i := i + 1;
    }
    assert !Crashes(rows, lo, hi, cols);
    return Some(dataDict);
  }
}
