/**
 * `main`: read the header, locate the three columns, plan the chunks, run
 * one `read_chunk` per range, drain the queue with `collect_stats` and sort.
 * The worker processes are run one after the other in launch order; what
 * each publishes does not depend on the others, and the drain order is
 * shown irrelevant in `Ordering.DrainOrderIrrelevant`.
 */
module Pipeline {
  import opened Basics
  import opened Text
  import opened Records
  import opened Grouping
  import opened Share
  import opened ChunkReader
  import opened Planner
  import opened Summary
  import opened Ordering

  /** Why `main` stops before writing anything. */
  datatype Failure =
    | EmptyFile      // no header row: `__next__` raises StopIteration
    | MissingColumn  // `header.index` raises ValueError
    | NoWorkers      // `num_of_lines // 0` raises ZeroDivisionError

  datatype Outcome = Failed(failure: Failure) | Done(rows: seq<StatRow>)

  /** The ranges `main` launches: none for a negative worker count, as `range` is then empty. */
  function Planned(lines: int, workers: int): (ranges: seq<Range>)
    requires workers != 0
    ensures workers < 0 ==> ranges == []
    ensures workers >= 1 ==> ranges == Plan(lines, workers)
  {
    if workers < 0 then [] else Plan(lines, workers)
  }

  /**
   * The queue after the workers for `ranges` have run: the maps of those
   * that finished, in launch order. A worker that raised put nothing.
   */
  function Published(file: seq<seq<string>>, ranges: seq<Range>, cols: Columns): (queue: seq<PartialMap>)
    ensures AllWellFormed(queue)
    ensures |queue| <= |ranges|
  {
    if ranges == [] then []
    else
      var last := ranges[|ranges| - 1];
      var earlier := Published(file, ranges[..|ranges| - 1], cols);
      match ChunkResult(file, last.start, last.end, cols)
      case None => earlier
      case Some(d) => earlier + [d]
  }

  /**
   * `main` over a file given as its csv rows (header first) and `lines`,
   * the `wc -l` count minus one. The output rows are what `write` receives.
   */
  method Run(file: seq<seq<string>>, lines: int, workers: int) returns (out: Outcome)
    requires lines >= -1
    ensures out == Failed(EmptyFile) <==> file == []
    ensures out == Failed(MissingColumn) <==> file != [] && FindColumns(file[0]).None?
    ensures out == Failed(NoWorkers) <==> file != [] && FindColumns(file[0]).Some? && workers == 0
    ensures out.Done? ==> file != [] && FindColumns(file[0]).Some? && workers != 0
    ensures out.Done? ==>
              && Sorted(out.rows)
              && Summarizes(MergeAll(Published(file, Planned(lines, workers), FindColumns(file[0]).value)), out.rows)
    ensures out.Done? && lines >= 0 && workers >= 1 && !Crashes(file, 1, Min(lines + 1, |file|), FindColumns(file[0]).value) ==>
              Summarizes(Group(Kept(file, 1, Min(lines + 1, |file|), FindColumns(file[0]).value)), out.rows)
  {
    if file == [] {
      return Failed(EmptyFile);
    }
    var found := FindColumns(file[0]);
    if found.None? {
      return Failed(MissingColumn);
    }
    var cols := found.value;
    var plan := PlanChunks(lines, workers);
    if plan.None? {
      return Failed(NoWorkers);
    }
    var ranges := plan.value;
    var queue: seq<PartialMap> := [];
    var k := 0;
    while k < |ranges|
      invariant 0 <= k <= |ranges|
      invariant queue == Published(file, ranges[..k], cols)
    {
      var published := ReadChunk(file, ranges[k].start, ranges[k].end, cols);
      assert ranges[..k + 1][..k] == ranges[..k];
      if published.Some? {
        queue := queue + [published.value];
      }
      k := k + 1;
    }
    assert ranges[..k] == ranges;
    var stats := CollectStats(queue);
    var sorted := SortRows(stats);
    PermutationKeepsSummary(MergeAll(queue), stats, sorted);
    if lines >= 0 && workers >= 1 && !Crashes(file, 1, Min(lines + 1, |file|), cols) {
      CrashFreeMerge(file, lines, workers, cols);
    }
    return Done(sorted);
  }

  /** How far into the file the first k workers reach. */
  function Reached(file: seq<seq<string>>, lines: int, workers: nat, k: nat): nat
    requires workers >= 1 && lines >= 0
  {
    Min(ChunkAt(lines, workers, k).start, |file|)
  }

  /**
   * When no data row crashes, the first k workers together publish, key by
   * key, the companies of the rows from 1 up to where the k-th range ends.
   */
  lemma {:induction false} PrefixGathers(file: seq<seq<string>>, lines: int, workers: nat, cols: Columns, k: nat)
    requires lines >= 0 && workers >= 1 && |file| >= 1 && k <= workers
    requires !Crashes(file, 1, Min(lines + 1, |file|), cols)
    ensures 1 <= Reached(file, lines, workers, k) <= Min(lines + 1, |file|)
    ensures forall p, y :: Gathered(Published(file, Plan(lines, workers)[..k], cols), p, y) ==
                           Bucket(Kept(file, 1, Reached(file, lines, workers, k), cols), p, y)
  {
    var plan := Plan(lines, workers);
    if k == 0 {
      assert plan[..0] == [];
      forall p, y ensures Gathered([], p, y) == Bucket(Kept(file, 1, 1, cols), p, y) {
      }
    } else {
      var j := k - 1;
      PrefixGathers(file, lines, workers, cols, j);
      var lo, hi := Reached(file, lines, workers, j), Reached(file, lines, workers, k);
      var d := ChunkStep(file, lines, workers, cols, j);
      var earlier := Published(file, plan[..j], cols);
      KeptSplit(file, 1, lo, hi, cols);
      forall p, y ensures Gathered(earlier + [d], p, y) == Bucket(Kept(file, 1, hi, cols), p, y) {
        GatheredConcat(earlier, [d], p, y);
        assert Gathered([d], p, y) == Lookup(d, p, y) + Gathered([], p, y);
        BucketConcat(Kept(file, 1, lo, cols), Kept(file, lo, hi, cols), p, y);
      }
    }
  }

  /**
   * The worker for range j reads exactly the rows between where the first j
   * and the first j+1 workers reach, and publishes their map.
   */
  lemma ChunkStep(file: seq<seq<string>>, lines: int, workers: nat, cols: Columns, j: nat) returns (d: PartialMap)
    requires lines >= 0 && workers >= 1 && |file| >= 1 && j < workers
    requires !Crashes(file, 1, Min(lines + 1, |file|), cols)
    ensures 1 <= Reached(file, lines, workers, j) <= Reached(file, lines, workers, j + 1) <= Min(lines + 1, |file|)
    ensures d == Group(Kept(file, Reached(file, lines, workers, j), Reached(file, lines, workers, j + 1), cols))
    ensures Published(file, Plan(lines, workers)[..j + 1], cols) == Published(file, Plan(lines, workers)[..j], cols) + [d]
  {
    var plan := Plan(lines, workers);
    PlanTiles(lines, workers);
    RangesWithinData(lines, workers, j);
    var r := plan[j];
    assert plan[..j + 1][..j] == plan[..j];
    var lo, hi := Reached(file, lines, workers, j), Reached(file, lines, workers, j + 1);
    assert Window(|file|, r.start, r.end) == (lo, hi);
    CrashesWiden(file, lo, hi, 1, Min(lines + 1, |file|), cols);
    d := Group(Kept(file, lo, hi, cols));
    assert ChunkResult(file, r.start, r.end, cols) == Some(d);
  }

  /**
   * When no data row crashes, merging what the workers publish gives the map
   * one reader of data rows 1..lines would build, for every positive worker count.
   */
  lemma CrashFreeMerge(file: seq<seq<string>>, lines: int, workers: nat, cols: Columns)
    requires lines >= 0 && workers >= 1 && |file| >= 1
    requires !Crashes(file, 1, Min(lines + 1, |file|), cols)
    ensures MergeAll(Published(file, Plan(lines, workers), cols)) == Group(Kept(file, 1, Min(lines + 1, |file|), cols))
  {
    PrefixGathers(file, lines, workers, cols, workers);
    ChunkSizeBounds(lines, workers);
    assert Reached(file, lines, workers, workers) == Min(lines + 1, |file|);
    assert Plan(lines, workers)[..workers] == Plan(lines, workers);
    SameLookupsSameMap(MergeAll(Published(file, Plan(lines, workers), cols)), Group(Kept(file, 1, Min(lines + 1, |file|), cols)));
  }

  /** Without a crashing row, two worker counts give the same sorted output. */
  lemma WorkerCountIrrelevantWithoutCrash(file: seq<seq<string>>, lines: int, w1: nat, w2: nat, cols: Columns,
                                          s1: seq<StatRow>, s2: seq<StatRow>)
    requires lines >= 0 && w1 >= 1 && w2 >= 1 && |file| >= 1
    requires !Crashes(file, 1, Min(lines + 1, |file|), cols)
    requires Summarizes(MergeAll(Published(file, Plan(lines, w1), cols)), s1) && Sorted(s1)
    requires Summarizes(MergeAll(Published(file, Plan(lines, w2), cols)), s2) && Sorted(s2)
    ensures s1 == s2
  {
    CrashFreeMerge(file, lines, w1, cols);
    CrashFreeMerge(file, lines, w2, cols);
    SortedSummaryUnique(Group(Kept(file, 1, Min(lines + 1, |file|), cols)), s1, s2);
  }

  /**
   * A row whose date does not parse is not dropped: it takes its whole
   * chunk down. With one worker, the sample's good row is counted when the
   * file stops before the bad row, and lost when the bad row follows it.
   */
  lemma BadDateLosesChunk(s1: seq<StatRow>, s2: seq<StatRow>)
    requires Summarizes(MergeAll(Published(Sample[..2], Plan(1, 1), SampleColumns)), s1)
    requires Summarizes(MergeAll(Published(Sample, Plan(2, 1), SampleColumns)), s2)
    ensures s1 == [SampleRow]
    ensures s2 == []
  {
    GoodRowAlone();
    SampleMapSummary(s1);
    OneWorkerLosesAll();
    EmptySummaryIff(map[], s2);
  }

  /**
   * With a crashing row the output depends on the worker count: one worker
   * reads both sample rows and loses everything; with two workers the first
   * row survives.
   */
  lemma WorkerCountChangesOutput(s1: seq<StatRow>, s2: seq<StatRow>)
    requires Summarizes(MergeAll(Published(Sample, Plan(2, 1), SampleColumns)), s1)
    requires Summarizes(MergeAll(Published(Sample, Plan(2, 2), SampleColumns)), s2)
    ensures s1 == []
    ensures s2 == [SampleRow]
  {
    OneWorkerLosesAll();
    EmptySummaryIff(map[], s1);
    TwoWorkersKeepFirst();
    SampleMapSummary(s2);
  }

  /** The one row summarising the sample's good row. */
  lemma SampleMapSummary(rows: seq<StatRow>)
    requires AllWellFormed([SampleMap]) && Summarizes(MergeAll([SampleMap]), rows)
    ensures rows == [SampleRow]
  {
    SingleKeyMap("loans", 2019, ["acme"]);
    MergeOne(SampleMap);
    OnlyKeySummary(SampleMap, rows, "loans", 2019);
    SingleCompanyRow();
  }

  lemma SingleKeyMap(p: string, y: int, cs: seq<string>)
    requires cs != []
    ensures var d: PartialMap := map[p := map[y := cs]];
      WellFormed(d) && d.Keys == {p} && d[p].Keys == {y} && d[p][y] == cs
  {
    var d: PartialMap := map[p := map[y := cs]];
    assert d[p] == map[y := cs];
    assert y in d[p].Keys;
  }

  lemma SingleCompanyRow()
    ensures StatOf("loans", 2019, ["acme"]) == SampleRow
  {
    AllSameIsHundred(["acme"]);
    assert Distinct(["acme"]) == {"acme"};
  }

  /** One worker over the file cut before the bad row reads row 1 and publishes it. */
  lemma GoodRowAlone()
    ensures Published(Sample[..2], Plan(1, 1), SampleColumns) == [SampleMap]
  {
    var rec := Record("loans", 2019, "acme");
    SampleRows();
    assert Plan(1, 1) == [Range(1, 2)];
    assert Sample[..2][1] == Sample[1];
    assert Kept(Sample[..2], 1, 2, SampleColumns) == [rec];
    GroupOne(rec);
  }

  /** One worker reads rows [1, 3), meets the bad row and publishes nothing. */
  lemma OneWorkerLosesAll()
    ensures Published(Sample, Plan(2, 1), SampleColumns) == []
  {
    SampleRows();
    assert Plan(2, 1) == [Range(1, 3)];
    assert Crashes(Sample, 1, 3, SampleColumns);
  }

  /** Two workers read rows [1, 2) and [2, 3): the first publishes its row, the second raises. */
  lemma TwoWorkersKeepFirst()
    ensures Published(Sample, Plan(2, 2), SampleColumns) == [SampleMap]
  {
    var rec := Record("loans", 2019, "acme");
    SampleRows();
    assert Plan(2, 2) == [Range(1, 2), Range(2, 3)];
    assert Kept(Sample, 1, 2, SampleColumns) == [rec];
    GroupOne(rec);
    assert Crashes(Sample, 2, 3, SampleColumns);
    assert [Range(1, 2), Range(2, 3)][..1] == [Range(1, 2)];
  }

  lemma GroupOne(r: Record)
    ensures Group([r]) == map[r.product := map[r.year := [r.company]]]
  {
    assert [r][..0] == [];
  }

  /** The sample's first data row is kept; the second, whose date does not parse, raises. */
  lemma SampleRows()
    ensures Classify(Sample[1], SampleColumns) == Keep(Record("loans", 2019, "acme"))
    ensures Classify(Sample[2], SampleColumns) == Crash
  {
    SampleDate();
    LowerWord("Loans", "loans");
    LowerWord("Acme", "acme");
  }

  lemma SampleDate()
    ensures ValidYmd("2019-05-01") && YearOf("2019-05-01") == 2019
  {
    var date := "2019-05-01";
    assert date[..4] == "2019";
    assert date[5..7] == "05";
    assert date[8..] == "01";
    Number2019();
  }

  lemma LowerWord(s: string, t: string)
    requires |s| == |t| && forall i :: 0 <= i < |s| ==> LowerChar(s[i]) == t[i]
    ensures Lower(s) == t
  {
  }

  /** The output is empty exactly when nothing was merged. */
  lemma EmptySummaryIff(merged: PartialMap, rows: seq<StatRow>)
    requires WellFormed(merged) && Summarizes(merged, rows)
    ensures rows == [] <==> merged == map[]
  {
    assert rows != [] ==> rows[0] in rows;
    if merged != map[] {
      var p := Pick(merged.Keys);
      var y := Pick(merged[p].Keys);
      KeysOfMember(rows, (p, y));
    }
  }

  lemma MergeOne(d: PartialMap)
    requires WellFormed(d)
    ensures MergeAll([d]) == d
  {
    var merged := MergeAll([d]);
    forall p, y ensures Lookup(merged, p, y) == Lookup(d, p, y) {
      assert Gathered([d], p, y) == Lookup(d, p, y) + Gathered([], p, y);
    }
    SameLookupsSameMap(merged, d);
  }

  /** A summary of a map with a single key is the single row of that key. */
  lemma OnlyKeySummary(merged: PartialMap, rows: seq<StatRow>, p: string, y: int)
    requires WellFormed(merged) && Summarizes(merged, rows)
    requires merged.Keys == {p} && merged[p].Keys == {y}
    ensures rows == [StatOf(p, y, merged[p][y])]
  {
    KeysOfMember(rows, (p, y));
    RowsAtOnlyKey(merged, rows, p, y);
    assert |rows| < 2 by {
      assert KeysUnique(rows);
    }
  }

  lemma RowsAtOnlyKey(merged: PartialMap, rows: seq<StatRow>, p: string, y: int)
    requires WellFormed(merged) && Summarizes(merged, rows)
    requires merged.Keys == {p} && merged[p].Keys == {y}
    ensures forall j :: 0 <= j < |rows| ==> rows[j] == StatOf(p, y, merged[p][y])
  {
    forall j | 0 <= j < |rows| ensures rows[j] == StatOf(p, y, merged[p][y]) {
      assert rows[j] in rows;
    }
  }

  const SampleColumns := Columns(0, 1, 2)

  /** A header and two complaints against Acme; the second one's date is not a date. */
  const Sample: seq<seq<string>> := [[DateColumn, ProductColumn, CompanyColumn], ["2019-05-01", "Loans", "Acme"], ["N/A", "Loans", "Acme"]]

  const SampleMap: PartialMap := map["loans" := map[2019 := ["acme"]]]

  const SampleRow := StatRow("loans", 2019, 1, 1, 100)
}
