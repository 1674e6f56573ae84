/**
 * Chunk planning in `main`: `chunk_size = num_of_lines // num_of_workers`
 * (from `chunkfy`) and the loop that hands each worker a half-open range of
 * row numbers. Row 0 is the header; data rows are 1..lines.
 */
module Planner {
  import opened Basics

  /** The half-open row range [start, end) of one worker. */
  datatype Range = Range(start: int, end: int)

  /**
   * The k-th range the loop produces, in closed form. With c the chunk size,
   * the first range is [1, c+1); every later one starts where the previous
   * ended and ends at min(previous end + c, lines) + 1, which unrolls to
   * min((k+1)*(c+1), lines+1). Python's `//` and Dafny's `/` agree here
   * because the divisor is positive.
   */
  function ChunkAt(lines: int, workers: nat, k: nat): Range
    requires workers >= 1
  {
    var c := lines / workers;
    Range(if k == 0 then 1 else Min(k * (c + 1), lines + 1), Min((k + 1) * (c + 1), lines + 1))
  }

  /** The ranges of all workers, in launch order. */
  function Plan(lines: int, workers: nat): (ranges: seq<Range>)
    requires workers >= 1
    ensures |ranges| == workers
    ensures forall k :: 0 <= k < workers ==> ranges[k] == ChunkAt(lines, workers, k)
  {
    seq(workers, k requires 0 <= k < workers => ChunkAt(lines, workers, k))
  }

  lemma ChunkSizeBounds(lines: int, workers: nat)
    requires lines >= -1 && workers >= 1
    ensures -1 <= lines / workers
    ensures lines / workers <= lines
    ensures lines < workers * (lines / workers + 1)
  {
    var c := lines / workers;
    assert lines == workers * c + lines % workers;
    assert workers * (c + 1) == workers * c + workers;
  }

  lemma NextEnd(lines: int, workers: nat, k: nat)
    requires lines >= -1 && workers >= 1
    ensures Min(ChunkAt(lines, workers, k).end + lines / workers, lines) + 1 == ChunkAt(lines, workers, k + 1).end
  {
    var c := lines / workers;
    ChunkSizeBounds(lines, workers);
    assert (k + 2) * (c + 1) == (k + 1) * (c + 1) + (c + 1);
    if (k + 1) * (c + 1) > lines + 1 {
      assert c + 1 >= 0;
    }
  }

  lemma FirstChunk(lines: int, workers: nat)
    requires lines >= -1 && workers >= 1
    ensures ChunkAt(lines, workers, 0) == Range(1, 1 + lines / workers)
  {
    ChunkSizeBounds(lines, workers);
    assert 1 * (lines / workers + 1) == lines / workers + 1;
  }

  /**
   * The planning loop of `main`. `workers == 0` is the ZeroDivisionError of
   * `chunkfy` (None); a negative count makes `range` empty, so no worker is
   * started. `lines` is the `wc -l` count minus the header, hence >= -1.
   */
  method PlanChunks(lines: int, workers: int) returns (plan: Option<seq<Range>>)
    requires lines >= -1
    ensures plan.None? <==> workers == 0
    ensures workers < 0 ==> plan == Some([])
    ensures workers >= 1 ==> plan == Some(Plan(lines, workers))
  {
    if workers == 0 {
      return None;
    }
    if workers < 0 {
      return Some([]);
    }
    var chunkSize := lines / workers;
    ChunkSizeBounds(lines, workers);
    var start := 1;
    var end := start + chunkSize;
    FirstChunk(lines, workers);
    var ranges: seq<Range> := [];
    var k := 0;
    while k < workers
      invariant 0 <= k <= workers
      invariant |ranges| == k
      invariant forall j :: 0 <= j < k ==> ranges[j] == ChunkAt(lines, workers, j)
      invariant Range(start, end) == ChunkAt(lines, workers, k)
    {
      ranges := ranges + [Range(start, end)];
      NextEnd(lines, workers, k);
      start := end;
      end := Min(start + chunkSize, lines) + 1;
      k := k + 1;
    }
    assert ranges == Plan(lines, workers);
    return Some(ranges);
  }

  /**
   * The plan tiles the data rows: the first range starts at row 1, each
   * range starts where the previous one ended, none runs backwards, and the
   * last ends just past row `lines` — for every lines >= 0 and workers >= 1,
   * including no data rows and more workers than rows.
   */
  lemma PlanTiles(lines: int, workers: nat)
    requires lines >= 0 && workers >= 1
    ensures Plan(lines, workers)[0].start == 1
    ensures Plan(lines, workers)[workers - 1].end == lines + 1
    ensures forall k :: 0 <= k < workers ==> Plan(lines, workers)[k].start <= Plan(lines, workers)[k].end
    ensures forall k :: 0 < k < workers ==> Plan(lines, workers)[k].start == Plan(lines, workers)[k - 1].end
  {
    var c := lines / workers;
    ChunkSizeBounds(lines, workers);
    forall k | 0 <= k < workers
      ensures ChunkAt(lines, workers, k).start <= ChunkAt(lines, workers, k).end
    {
      if k > 0 {
        MulMono(k, k + 1, c + 1);
      }
    }
  }

  /** The worker whose range holds data row `row`: row / (c+1), its range being [k(c+1), (k+1)(c+1)) clipped. */
  function Owner(lines: int, workers: nat, row: int): (k: nat)
    requires lines >= 0 && workers >= 1 && 1 <= row <= lines
    ensures k < workers
    ensures ChunkAt(lines, workers, k).start <= row < ChunkAt(lines, workers, k).end
  {
    var c := lines / workers;
    ChunkSizeBounds(lines, workers);
    var k := row / (c + 1);
    assert row == k * (c + 1) + row % (c + 1);
    assert (k + 1) * (c + 1) == k * (c + 1) + (c + 1);
    assert k < workers by {
      if k >= workers {
        MulMono(workers, k, c + 1);
      }
    }
    k
  }

  lemma MulMono(a: nat, b: nat, c: nat)
    requires a <= b
    ensures a * c <= b * c
  {
  }

  /** No data row is visited twice: two ranges that hold the same row are the same range. */
  lemma RangesDisjoint(lines: int, workers: nat, j: nat, k: nat, row: int)
    requires lines >= 0 && workers >= 1 && j < workers && k < workers
    requires ChunkAt(lines, workers, j).start <= row < ChunkAt(lines, workers, j).end
    requires ChunkAt(lines, workers, k).start <= row < ChunkAt(lines, workers, k).end
    ensures j == k
  {
    var c := lines / workers;
    ChunkSizeBounds(lines, workers);
    if j < k {
      MulMono(j + 1, k, c + 1);
    } else if k < j {
      MulMono(k + 1, j, c + 1);
    }
  }

  /** Rows outside 1..lines (the header, or past the end) belong to no range. */
  lemma RangesWithinData(lines: int, workers: nat, k: nat)
    requires lines >= 0 && workers >= 1 && k < workers
    ensures 1 <= ChunkAt(lines, workers, k).start
    ensures ChunkAt(lines, workers, k).end <= lines + 1
  {
    var c := lines / workers;
    ChunkSizeBounds(lines, workers);
    if k > 0 {
      MulMono(1, k, c + 1);
    }
  }
}
