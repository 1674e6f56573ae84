# Consumer-complaint aggregation, modelled in Dafny

`src/consumer_complaints.py` reads a CSV file of consumer complaints. For
every (product, year) pair it reports five things:

- the product and the year
- the number of complaints
- the number of distinct companies named
- the percentage of complaints naming the most frequent company

The work is split as follows:

- `main` splits the data rows into one range per worker.
- Each worker (`read_chunk`) parses its rows and builds a private map
  product -> year -> companies.
- `collect_stats` drains the workers' maps from a queue, concatenates them
  key by key and emits one row per key.
- `main` sorts the rows.

This project models that pipeline:

| module | file | models |
|---|---|---|
| `Text` | text.dfy | ASCII `str.lower`; the `strptime(..., '%Y-%m-%d')` acceptance test, field by field |
| `Records` | records.dfy | `parse_list`; the header lookup of `main` |
| `Share` | share.dfy | `most_common`, with Python's `round` as exact round-half-to-even |
| `Grouping` | grouping.dfy | the nested map and its `d[p][y] = d[p].get(y, []) + cs` update |
| `ChunkReader` | chunks.dfy | `read_chunk`, as a loop proved against a specification function |
| `Planner` | planner.dfy | `chunk_size` and the range loop of `main`, as a loop proved against a closed form |
| `Summary` | summary.dfy | `collect_stats`, with its drain loop and its emit loop |
| `Ordering` | ordering.dfy | `stats.sort()` on the row tuples |
| `Pipeline` | pipeline.dfy | `main`, end to end |

The main results:

- **Rows.** A row is kept exactly when its date parses, its product and
  company columns exist, and the lower-cased product and company are
  non-empty.
- **Tiling.** The planned ranges tile rows 1..`lines`: contiguous, disjoint,
  first start 1, last end `lines`+1.
- **No crashes, one answer.** Take `lines >= 0` and a positive worker
  count. When no row makes a worker raise, merging the workers' maps gives
  the map one pass over all data rows 1..`lines` would build. The sorted
  output is then the same for every positive worker count. A count of 0
  fails and a negative count gives an empty report (see below).
- **Order.** The sorted output does not depend on either of these:
  - the order in which workers' maps leave the queue
  - the order in which dictionaries are iterated
- **Rows in the output.** Each output row is the statistics of its key, with
  1 <= distinct <= total and share <= 100. Keys are unique and strictly
  ascending.

Behaviour of the program that a reader might not expect, all of it modelled
as the code does it:

- **An invalid row crashes its worker; it is not dropped.**
  - When a row's date does not parse, or a column is missing,
    `parse_list` returns `None` for the product or the company
    (src/consumer_complaints.py:20-30).
  - `.lower()` on that `None` raises on line 99 or 100.
  - The worker dies before `queue.put` (line 107), so its whole chunk is
    lost.
  - Only rows whose product or company is empty are skipped (line 101).
  - `Pipeline.BadDateLosesChunk` shows a row with an unparsable date
    losing the good row next to it.
  - `Pipeline.WorkerCountChangesOutput` shows that the output then depends
    on the worker count.
- **The share can be 0.** `round` on line 37 gives 0 when the top company
  has at most 0.5% of the complaints: exactly 0.5% rounds to the even
  neighbour 0 (`Share.ShareCanBeZero`).
- **No range takes the leftover rows.** With `c = lines // workers`
  (line 115), the first range holds `c` rows and each later one `c+1`,
  clipped at `lines` (lines 142-151). The ranges still cover every row
  exactly once (`Planner.PlanTiles`, `Planner.RangesDisjoint`).
- **Worker counts.**
  - A count of 0 raises ZeroDivisionError on line 115, modelled as
    `NoWorkers`.
  - A negative count makes `range` on line 145 empty: no worker runs and
    the report is empty.
- **Date forms.** `strptime` on line 24 also accepts one-digit months and
  days, and a day written as a space and a digit. The model accepts exactly
  those forms (`Text.ShortFieldsAccepted`), and every zero-padded date
  (`Text.IsoDateAccepted`).

`lines` is the `wc -l` count minus one (lines 113-114), passed in as a
parameter. A quoted field that spans lines adds a newline but no CSV row,
so it only makes `lines` larger than the number of data rows; those rows
are all still read. Rows past row `lines` exist only when the file has
more CSV rows than newline characters: a last row without a final newline,
or lines ended by `\r` alone. No range reaches those rows, so they are
never read.

## Model

| member | source | states |
|---|---|---|
| Text.Lower | src/consumer_complaints.py:99-100 | the result has the input's length, each character is that character lower-cased, and no upper-case ASCII letter remains |
| Text.LowerIdempotent | src/consumer_complaints.py:99-100 | lower-casing a lower-cased name changes nothing, so grouping keys are stable |
| Text.FieldValue | src/consumer_complaints.py:24 | a `%m` field denotes a month 1..12 and a `%d` field a day 1..31 |
| Text.ValidYmd | src/consumer_complaints.py:24 | an accepted date is 8 to 10 characters long and starts with four digits and a '-' (the `%Y` field), its one- or two-character `%m` and `%d` fields filling the rest; `Text.IsoDateAccepted` shows every real date is accepted |
| Text.YearOf | src/consumer_complaints.py:24-25 | the year of an accepted date lies in 1..9999, so it is always truthy at line 101 |
| Text.MonthDayOf | src/consumer_complaints.py:24 | an accepted date names an existing calendar day: month 1..12, day within that month of that year |
| Text.ShortFieldsAccepted | src/consumer_complaints.py:24 | "2019-5-1" and "2019-05- 7" are accepted, as May 1 and May 7 |
| Text.CalendarChecked | src/consumer_complaints.py:24 | February 29 is accepted in 2020 and refused in 2019; trailing text after the day is refused |
| Text.IsoDateAccepted | src/consumer_complaints.py:24-25 | every calendar day of years 1..9999, written zero-padded as YYYY-MM-DD, is accepted and parses back to its own year, month and day |
| Records.PyIndex | src/consumer_complaints.py:24-27 | list indexing succeeds exactly for -len <= i < len and yields the element at a non-negative index |
| Records.ParseList | src/consumer_complaints.py:11-30 | the year is present iff the date field exists and parses, and is that date's year; a product only after a year, a company only after a product; each field read is the column at its index |
| Records.IndexOf | src/consumer_complaints.py:135-137 | None iff the name is absent from the header, else the first position holding it |
| Records.FindColumns | src/consumer_complaints.py:134-140 | the three positions exist iff all three column names are in the header, each being the first occurrence |
| Share.RoundHalfEven | src/consumer_complaints.py:37 | the result is within half of num/den, and even when num/den lies exactly halfway |
| Share.RoundHalfEvenUnique | src/consumer_complaints.py:37 | any integer that is nearest to num/den, even on a tie, is the rounded value |
| Share.HighestCount | src/consumer_complaints.py:35-36 | no element occurs more often than the result, some element occurs exactly that often, and 1 <= result <= length |
| Share.HighestCountOfPermutation | src/consumer_complaints.py:35-36 | reordering the list keeps the highest count |
| Share.MostCommon | src/consumer_complaints.py:32-37 | the share is at most 100 and is the whole percentage nearest to 100*max/len, ties to even |
| Share.AllSameIsHundred | src/consumer_complaints.py:32-37 | a list naming one company only has share 100 |
| Share.ShareCanBeZero | src/consumer_complaints.py:37 | 200 or more complaints, all naming different companies, give share 0; at exactly 200 the share 0.5 rounds to the even 0 |
| Share.MostCommonOfPermutation | src/consumer_complaints.py:32-37 | the share depends only on the multiset of names |
| Grouping.Append | src/consumer_complaints.py:103-105 | the list under (p, y) gets the new companies appended, every other list is unchanged, the keys grow by (p, y) alone, and well-formedness is kept |
| Grouping.SameLookupsSameMap | src/consumer_complaints.py:54-56 | two well-formed maps holding the same list under every key are equal |
| ChunkReader.Classify | src/consumer_complaints.py:97-101 | a row raises iff its date is missing or does not parse, or its product or company column is missing; it is kept iff it does not raise and both raw fields are non-empty, as the lower-cased record |
| ChunkReader.Window | src/consumer_complaints.py:97 | islice visits exactly the row indices i with start <= i < end and i < row count |
| ChunkReader.KeptSplit | src/consumer_complaints.py:97-101 | the records kept from two adjacent stretches of rows are those kept from their union, in order |
| ChunkReader.BucketConcat | src/consumer_complaints.py:103-105 | the companies filed under a key from two record sequences are the concatenation of each one's |
| ChunkReader.Group | src/consumer_complaints.py:94-105 | the worker's map is well-formed and holds under each (p, y) exactly the companies of the kept records with that product and year, in file order |
| ChunkReader.GroupStep | src/consumer_complaints.py:101-105 | visiting one more row adds its record to the map when kept and leaves the map unchanged otherwise |
| ChunkReader.CrashesWiden | src/consumer_complaints.py:97-100 | a raising row in a stretch is a raising row of every wider stretch; so a stretch without one has no sub-stretch with one |
| ChunkReader.ChunkResult | src/consumer_complaints.py:95-107 | a worker publishes nothing exactly when `islice` gets a negative bound or some row it visits, start <= i < end, raises; what it publishes is well-formed, and an empty range publishes an empty dict |
| ChunkReader.ReadChunk | src/consumer_complaints.py:69-107 | the loop publishes nothing for a negative bound or when any visited row raises, and otherwise the grouped map of the kept rows of its window |
| Planner.Plan | src/consumer_complaints.py:142-151 | one range per worker, the k-th being the closed form of the loop's k-th (start, end) |
| Planner.ChunkSizeBounds | src/consumer_complaints.py:115 | the chunk size c = lines // workers is at least -1, at most lines, and workers*(c+1) exceeds lines |
| Planner.PlanChunks | src/consumer_complaints.py:142-151 | the loop yields no plan iff workers is 0 (division by zero), no ranges for a negative count, and otherwise exactly Plan |
| Planner.PlanTiles | src/consumer_complaints.py:142-151 | for lines >= 0 and workers >= 1: the first range starts at 1, the last ends at lines+1, none runs backwards, and each starts where the previous ended |
| Planner.Owner | src/consumer_complaints.py:142-151 | every data row 1..lines lies in the range of some worker |
| Planner.RangesDisjoint | src/consumer_complaints.py:142-151 | a row lies in the range of at most one worker |
| Planner.RangesWithinData | src/consumer_complaints.py:142-151 | no range reaches the header row or past row lines |
| Summary.StatOf | src/consumer_complaints.py:59 | the row carries its key, total is the list length, 1 <= distinct <= total, and share <= 100 |
| Summary.StatOfPermutation | src/consumer_complaints.py:59 | a group's row depends only on the multiset of its companies |
| Summary.SameCompanyTwiceScenario | src/consumer_complaints.py:59 | "acme", "acme" under (loans, 2020) give the row (loans, 2020, 2, 1, 100) |
| Summary.TwoThirdsScenario | src/consumer_complaints.py:59 | companies a, a, b give total 3, distinct 2, share 67 |
| Summary.MergeInto | src/consumer_complaints.py:51-56 | folding one worker's map appends its list to the accumulated list under every key and keeps well-formedness |
| Summary.MergeAll | src/consumer_complaints.py:49-56 | the drained map is well-formed and holds under each key the concatenation, in drain order, of that key's lists in the workers' maps |
| Summary.GatheredLength | src/consumer_complaints.py:54 | a merged list's length is the sum of the workers' list lengths |
| Summary.GatheredPermutation | src/consumer_complaints.py:49-56 | draining the same maps in another order gives each key the same multiset of companies |
| Summary.DrainOne | src/consumer_complaints.py:50-56 | the nested loops over one worker's map compute MergeInto, whatever order the keys are visited in |
| Summary.EmitRows | src/consumer_complaints.py:57-60 | the emit loops produce a summary of the map: one StatOf row per key, keys unique |
| Summary.CollectStats | src/consumer_complaints.py:39-61 | the result summarises the merge of the whole queue, and every row has 1 <= distinct <= total and share <= 100 |
| Summary.UniqueKeysCount | src/consumer_complaints.py:57-60 | rows with pairwise different keys each occur once |
| Summary.PermutationKeepsSummary | src/consumer_complaints.py:156 | any reordering of a summary is still a summary of the same map |
| Summary.SummariesAgree | src/consumer_complaints.py:57-60 | any two summaries of one map hold the same rows |
| Summary.DrainOrderKeepsSummary | src/consumer_complaints.py:49-56 | a summary of one drain order is a summary of any other order of the same worker maps |
| Ordering.StrLess | src/consumer_complaints.py:156 | Python's `<` on strings: a is below b exactly when a is a proper prefix of b, or a has the smaller character at the first position where they differ |
| Ordering.StrLessIrreflexive | src/consumer_complaints.py:156 | no string is smaller than itself |
| Ordering.StrLessAsymmetric | src/consumer_complaints.py:156 | of two strings at most one is smaller than the other |
| Ordering.StrLessTransitive | src/consumer_complaints.py:156 | Python's string order is transitive |
| Ordering.StrLessTotal | src/consumer_complaints.py:156 | of two different strings one is smaller |
| Ordering.RowLess | src/consumer_complaints.py:156 | Python's `<` on the (product, year, total, distinct, share) tuples, product first; no row is below itself |
| Ordering.RowLessEqTotal | src/consumer_complaints.py:156 | any two row tuples are comparable |
| Ordering.RowLessEqAntisymmetric | src/consumer_complaints.py:156 | tuples each at most the other are equal |
| Ordering.RowLessEqTransitive | src/consumer_complaints.py:156 | the tuple order is transitive |
| Ordering.Insert | src/consumer_complaints.py:156 | inserting into a sorted list keeps it sorted and adds exactly that row |
| Ordering.SortRows | src/consumer_complaints.py:156 | the result is sorted and a permutation of the input |
| Ordering.SortedUnique | src/consumer_complaints.py:156 | two sorted arrangements of one multiset of rows are equal |
| Ordering.DrainOrderIrrelevant | src/consumer_complaints.py:155-156 | for worker maps drained in any two orders, and any key order in each, the sorted outputs are equal |
| Ordering.SortedSummaryByKey | src/consumer_complaints.py:156 | in the sorted output, keys strictly ascend by product, then by year |
| Ordering.SortedSummaryUnique | src/consumer_complaints.py:155-156 | a map has exactly one sorted summary |
| Pipeline.Planned | src/consumer_complaints.py:145 | no ranges for a negative worker count, and the plan otherwise |
| Pipeline.Published | src/consumer_complaints.py:145-149 | the queue holds at most one well-formed map per launched worker |
| Pipeline.Run | src/consumer_complaints.py:128-157 | empty file, missing column and zero workers fail exactly in their cases. Otherwise the output is sorted and summarises the merge of what the workers published. For lines >= 0 and every positive worker count, without a crashing row, it summarises the grouping of all data rows 1..lines |
| Pipeline.ChunkStep | src/consumer_complaints.py:147-151 | the k-th worker reads exactly the rows between where the first k and the first k+1 ranges reach, and publishes their grouped map |
| Pipeline.PrefixGathers | src/consumer_complaints.py:142-151 | without a raising row, the first k workers' maps together hold, key by key, the companies of the rows they cover, in file order |
| Pipeline.CrashFreeMerge | src/consumer_complaints.py:142-156 | without a raising row, the merged map equals the map of one pass over rows 1..lines, for every positive worker count and lines >= 0 |
| Pipeline.WorkerCountIrrelevantWithoutCrash | src/consumer_complaints.py:142-156 | without a raising row and with lines >= 0, any two positive worker counts give the same sorted output |
| Pipeline.BadDateLosesChunk | src/consumer_complaints.py:97-107 | one good row alone is reported; followed by a row with an unparsable date, in the same chunk, nothing is reported |
| Pipeline.WorkerCountChangesOutput | src/consumer_complaints.py:142-151 | with that bad row, one worker reports nothing while two workers report the good row |
| Pipeline.OneWorkerLosesAll | src/consumer_complaints.py:97-107 | one worker over the sample publishes nothing |
| Pipeline.TwoWorkersKeepFirst | src/consumer_complaints.py:97-107 | of two workers over the sample, the first publishes the good row's map and the second nothing |
| Pipeline.SampleRows | src/consumer_complaints.py:97-101 | the sample's good row is kept as (loans, 2019, acme) and its bad-date row raises |
| Pipeline.EmptySummaryIff | src/consumer_complaints.py:57-61 | the output is empty exactly when the merged map is |
| Pipeline.OnlyKeySummary | src/consumer_complaints.py:57-60 | a map with a single key is summarised by that key's single row |

## Left out

- Command-line parsing and the `__main__` block (lines 161-168): the worker count is a parameter of `Pipeline.Run`.
- The message printed before the ValueError is re-raised (line 139): `Pipeline.Run` returns `Failed(MissingColumn)` and prints nothing.
- `wc -l` (lines 113-114): its count minus one is the parameter `lines`, required to be at least -1.
- File and CSV I/O, and `write` (lines 63-67):
  - the file is given as its sequence of CSV rows, header first
  - the output is the returned row sequence
  - an unopenable file, CSV quoting and I/O errors are not modelled
- Processes, `join` and the queue (lines 128-129, 145-154):
  - workers run one after another in launch order, and a worker that raises publishes nothing
  - the drain order is treated through `Ordering.DrainOrderIrrelevant`, not by modelling scheduling
- Python's dictionary iteration order: the key order in `collect_stats` is an arbitrary choice. A sorted output that does not depend on it is proved instead of modelling insertion order.
- Text.Lower: only ASCII letters are lower-cased; Unicode case mapping of `str.lower` is not modelled.
- Text.ValidYmd: `%Y`, and the second character of the `%d` alternative `[12]\d`, also accept non-ASCII decimal digits, which are refused here.
- Share.MostCommon: the share is computed by exact rational rounding. Python divides in floating point first, and that is not modelled. The two agree whenever the float error of one division is below 1/(2·len), which holds for any list a process can hold.
- Ordering.SortRows: `list.sort` is modelled by insertion sort. Only the result matters: sorted and a permutation, which fixes it uniquely (`Ordering.SortedUnique`).
- Ordering.StrLess: strings are compared by character code, as Python compares code points.
- The test script under `insight_testsuite` only copies a large input file and runs the program; it states no property to model.
