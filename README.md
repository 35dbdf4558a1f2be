# Semi-logarithmic latency histogram

This is a Dafny model of the latency histogram in `histogram/hist.go` of jsbench, a benchmark for NATS JetStream.

A `Table` is a slice of buckets `entry{min, max, n}`. Each bucket is the half-open range `[min, max)` of durations in nanoseconds plus a sample counter. The operations are:

- `New` builds 72 buckets. It walks a decade step `delta` over 100µs, 1ms, …, 1000s and appends nine linear buckets `[i*delta, (i+1)*delta)`, i = 1..9, for each step. The buckets cover 100µs up to 10000s without gaps.
- `Add(d)` scans the buckets in order. It increments the counter of the first bucket whose `max` is above `d`. When there is no such bucket it only logs.
- `Count` sums the counters.
- `nth(want)` returns the bounds of the first bucket whose running total reaches `want`, or `(0, 0)`.
- `Percentile(p)` calls `nth(ceil(p/100 * Count()))`.
- `String` lists the non-empty buckets, then the Median, 90%, 99% and 99.9% percentile lines.

The model has five modules:

- `Buckets` (`buckets.dfy`): the bucket entry, the layout `New` builds, and the contiguity invariant.
- `Counting` (`counting.dfy`): `Sum`, the slot a sample goes to, and what recording one or many samples does to a table.
- `Ranking` (`ranking.dfy`): `nth` and `Percentile` as functions over prefix sums. A percent is an integer number of thousandths, so 99.9% is 999.
- `Reporting` (`reporting.dfy`): the structure of `String`.
- `Histogram` (`histogram.dfy`): class `Table`. It holds an `array<Entry>`, and its methods are loops proved against the functions above.

`HistogramTests` (`histtests.dfy`) states the tests of `histogram/hist_test.go` (`TestTable_Add`, `TestTable_Percentile`, `TestNew`, `BenchmarkHist`) as lemmas and methods, proved rather than executed.

The buckets start at 100µs, not at the 1µs the header comment says (histogram/hist.go:4). The model follows the code.

The code also has these edge cases, and the model keeps them:

- `Add` tests only the upper bound (histogram/hist.go:40). Every duration below 200µs therefore lands in the first bucket, including zero and negative ones. A percentile can then answer a bucket that does not contain the sample it stands for.
- On a table without samples `Percentile` computes `want = 0` (histogram/hist.go:91). `nth(0)` then answers the first bucket, (100µs, 200µs).
- `nth` answers `(0, 0)` only when `want` is above `Count()` (histogram/hist.go:87).

## Model

| member | source | states |
|---|---|---|
| Buckets.Bucket | histogram/hist.go:29-32 | the k-th appended entry is the (k mod 9 + 1)-th linear bucket of decade k / 9, with a zero counter |
| Buckets.DeltaBelowLimit | histogram/hist.go:27 | the decade loop's test `delta < 10000s` holds for exactly the first eight steps |
| Buckets.BucketNonEmpty | histogram/hist.go:29-32 | every bucket New builds is a non-empty range of positive durations |
| Buckets.BucketStep | histogram/hist.go:27-32 | each bucket ends where the next one starts, also across a decade boundary |
| Buckets.LayoutShape | histogram/hist.go:25-36 | the layout has 72 buckets, the first starting at 100µs and the last ending at 10000s, all counters zero |
| Buckets.LayoutContiguous | histogram/hist.go:25-36 | the layout is contiguous: every range is non-empty and adjacent ranges meet |
| Buckets.ShapedIsContiguous | histogram/hist.go:23 | any table with New's bounds, whatever its counters, has the layout's bounds and is contiguous |
| Buckets.Ordered | histogram/hist.go:23 | in a contiguous table an earlier bucket ends no later than a later one starts |
| Counting.Slot | histogram/hist.go:39-44 | the chosen slot is the first index whose max is above d; all earlier maxima are at most d; the slot is the length when there is none |
| Counting.SlotUnique | histogram/hist.go:39-44 | an index with the "first max above d" property is the slot |
| Counting.SlotSameBounds | histogram/hist.go:40 | where a sample goes depends on the bounds only, not on the counters |
| Counting.DroppedIffBeyondLast | histogram/hist.go:38-47 | on a contiguous table a sample is dropped exactly when it is at or beyond the last bucket's max |
| Counting.DroppedWhenValid | histogram/hist.go:38-47 | on a table with New's bounds, a sample is dropped exactly when it is at least 10000s |
| Counting.DroppedOnShaped | histogram/hist.go:45-46 | on a table with New's bounds a sample is dropped exactly when it is at least 10000s, and then the table is unchanged |
| Counting.SlotMono | histogram/hist.go:39-44 | a larger sample never lands in an earlier bucket |
| Counting.SlotAgainstBucket | histogram/hist.go:39-44 | on a contiguous table, a sample inside its range lands before bucket k exactly when it is below k's min, and at or before k exactly when it is below k's max |
| Counting.Coverage | histogram/hist.go:39-43 | a sample inside the table's range lands in a bucket whose [min, max) contains it, and no other bucket contains it |
| Counting.LowSamplesInFirstBucket | histogram/hist.go:40-41 | every sample below the first bucket's max, including zero and negative durations, is counted in the first bucket |
| Counting.SumUpdate | histogram/hist.go:71-77 | replacing one bucket changes the total by the difference of the counters |
| Counting.PrefixMono | histogram/hist.go:79-88 | running totals never decrease along the table |
| Counting.AddedFrame | histogram/hist.go:39-43 | Add keeps every bound, adds one to the slot's counter and leaves every other entry equal; a dropped sample leaves the table equal |
| Counting.AddedPrefix | histogram/hist.go:39-43 | Add raises the running total before bucket k by one exactly when the sample lands below k |
| Counting.AddedSum | histogram/hist.go:38-47 | Add raises Count by one, or by nothing when the sample is dropped |
| Counting.AddedKeepsShape | histogram/hist.go:41 | Add keeps the bounds New built |
| Counting.LandedSameBounds | histogram/hist.go:40 | how many samples land below bucket k depends on the bounds only |
| Counting.AddAllPrefix | histogram/hist.go:38-47 | after a run of Adds the bounds are unchanged and each running total has grown by the number of samples landed below it |
| Counting.AddAllSum | histogram/hist.go:38-47 | after a run of Adds Count has grown by the number of samples not dropped |
| Counting.AddAllSnoc | histogram/hist.go:38-47 | one more Add after a run equals the run extended by that sample |
| Counting.LandedBelow | histogram/hist.go:39-43 | on a contiguous table with every sample inside its range, the samples landing before bucket k are those below k's min, and those landing at or before k are those below k's max |
| Counting.LandedAll | histogram/hist.go:39-43 | when no sample of a run is dropped, all of them land in the table |
| Counting.FreshCount | histogram/hist.go:29-32 | Count is 0 on a fresh table |
| Counting.FreshAddsCount | histogram/hist.go:38-47 | N samples below 10000s added to a fresh table give Count() == N |
| Ranking.RankFrom | histogram/hist.go:81-87 | the scan from bucket i stops at the first bucket whose running total reaches want, or at the end |
| Ranking.Rank | histogram/hist.go:79-88 | the rank is the first index whose running total reaches want, with every earlier total below it, or the length when none reaches it |
| Ranking.Want | histogram/hist.go:91 | the target rank is the exact ceiling of perMille/1000 times the total |
| Ranking.RankUnique | histogram/hist.go:79-88 | an index with the "first to reach want" property is the rank |
| Ranking.RankAt | histogram/hist.go:79-88 | when want lies above the total before bucket k and within the total through k, nth answers bucket k's bounds |
| Ranking.ThroughAtMostSum | histogram/hist.go:71-88 | no running total exceeds Count |
| Ranking.NthSentinel | histogram/hist.go:87 | on a non-empty table nth finds no bucket exactly when want is above Count, and then answers (0, 0) |
| Ranking.NthNonPositive | histogram/hist.go:79-85 | a want of zero or less is met by the first bucket, whatever the counters |
| Ranking.RankMono | histogram/hist.go:79-88 | a larger want never selects an earlier bucket |
| Ranking.RankBrackets | histogram/hist.go:79-88 | for 0 < want <= Count, fewer than want samples are counted before the selected bucket, at least want through it, and its counter is positive |
| Ranking.WantMono | histogram/hist.go:91 | a larger percent never asks for a smaller rank, and a percent of at most 100 never asks for more than Count |
| Ranking.PercentileMonotone | histogram/hist.go:90-93 | on a contiguous table, p1 <= p2 <= 100% gives a bucket whose min and max are both no smaller |
| Ranking.PercentileBrackets | histogram/hist.go:90-93 | on a table with samples, a percent in (0, 100] names a non-empty bucket; fewer than Want samples are counted before it and at least Want through it |
| Ranking.WantPositive | histogram/hist.go:91 | a positive percent of a positive Count asks for a positive rank |
| Ranking.RecordedBelow | histogram/hist.go:38-47 | samples inside the range of an empty contiguous table, once recorded, give running totals before and through bucket k equal to the number of samples below k's min and below k's max |
| Ranking.RecordedAll | histogram/hist.go:38-47 | samples inside the range of an empty contiguous table are all counted |
| Ranking.PercentileHoldsRankOn | histogram/hist.go:90-93 | for samples inside the range of an empty contiguous table and a percent in (0, 100], fewer than Want samples are below the answer's min and at least Want are below its max, so the answer brackets the sample of rank Want |
| Ranking.PercentileHoldsRank | histogram/hist.go:90-93 | the same for samples between 100µs and 10000s recorded into a new table |
| Ranking.EmptyPercentile | histogram/hist.go:90-93 | on a table without samples every percentile answers the first bucket's bounds, not (0, 0) |
| Reporting.NonEmptyTotal | histogram/hist.go:51-56 | the listed buckets hold every sample of the table, and there are no more of them than buckets |
| Reporting.NonEmptyMembers | histogram/hist.go:51-56 | a bucket is listed exactly when the table has it with a non-zero counter |
| Reporting.NonEmptyAppend | histogram/hist.go:51-56 | listing a table cut in two lists the first part, then the second |
| Reporting.NonEmptyZero | histogram/hist.go:52-54 | a table without samples lists nothing |
| Reporting.NonEmptyOnly | histogram/hist.go:51-56 | a table with one non-empty bucket lists exactly that bucket |
| Reporting.NonEmptyTwo | histogram/hist.go:51-56 | a table with two non-empty buckets lists exactly those two, in order |
| Histogram.Table.New | histogram/hist.go:25-36 | the nested loops build exactly the layout, so the new table has the constructor's shape |
| Histogram.Table.Add | histogram/hist.go:38-47 | the loop increments the first bucket whose max is above d and nothing else; the flag is set exactly when the sample is dropped, which on a valid table means exactly when d is at least 10000s; the table keeps its shape |
| Histogram.Table.Count | histogram/hist.go:71-77 | the loop returns the sum of all counters and changes nothing |
| Histogram.Table.Nth | histogram/hist.go:79-88 | the loop returns the bounds of the first bucket whose running total reaches want, or (0, 0) |
| Histogram.Table.Percentile | histogram/hist.go:90-93 | the answer is nth of the ceiling of perMille/1000 times Count |
| Histogram.Table.PercentileLine | histogram/hist.go:66-69 | a percentile line carries its prefix and the bounds Percentile answers |
| Histogram.Table.Report | histogram/hist.go:49-64 | the summary is the non-empty buckets in table order, then the Median, 90%, 99% and 99.9% lines |
| HistogramTests.LayoutSlot | histogram/hist_test.go:11-13 | on the fresh layout a sample inside bucket k's range goes to bucket k |
| HistogramTests.FreshPrefix | histogram/hist_test.go:10-13 | running totals of a fresh table after a run equal the number of samples landed below each bucket |
| HistogramTests.LandedConsecutive | histogram/hist_test.go:28-30 | samples landing in consecutive buckets give running totals that rise by one per bucket |
| HistogramTests.TableAddSlots | histogram/hist_test.go:11-13 | 1ms and 1234µs go to bucket 9 (1ms-2ms) and 4s to bucket 39 (4s-5s) |
| HistogramTests.TableAddLanded | histogram/hist_test.go:11-13 | two samples land below every bucket after 9 and three below every bucket after 39 |
| HistogramTests.TableAddState | histogram/hist_test.go:11-13 | three single Adds equal the run of all three |
| HistogramTests.TableAddCounts | histogram/hist_test.go:11-13 | the running totals after the three Adds |
| HistogramTests.TableAddCounters | histogram/hist_test.go:11-15 | bucket 9 holds 2, bucket 39 holds 1, all others 0 |
| HistogramTests.TableAddListed | histogram/hist_test.go:14-15 | the summary lists 1ms-2ms: 2 and 4s-5s: 1 |
| HistogramTests.NamedBuckets | histogram/hist_test.go:14-40 | the buckets the tests name have the bounds the tests expect |
| HistogramTests.FreshBounds | histogram/hist_test.go:14-40 | bucket bounds after a run of Adds to a fresh table are New's bounds |
| HistogramTests.TableAddTotals | histogram/hist_test.go:17-20 | the running totals the percentile queries use after the three Adds |
| HistogramTests.TableAddPercentiles | histogram/hist_test.go:17-20 | Median is 1ms-2ms; 90%, 99% and 99.9% are 4s-5s |
| HistogramTests.TableAddSummary | histogram/hist_test.go:9-24 | the whole summary TestTable_Add expects |
| HistogramTests.TablePercentileSlots | histogram/hist_test.go:28-30 | i ms goes to bucket 8 + i for i = 1..10 |
| HistogramTests.TablePercentileCounts | histogram/hist_test.go:28-30 | the running totals after adding 1ms..10ms |
| HistogramTests.TablePercentileAnswers | histogram/hist_test.go:26-53 | 50% gives 5ms-6ms, 90% gives 9ms-10ms, 99% and 100% give 10ms-20ms |
| HistogramTests.LowSampleMedian | histogram/hist.go:90-93 | one 50µs sample gives the median 100µs-200µs, a range that does not contain the sample |
| HistogramTests.FreshTableAnswers | histogram/hist.go:90-93 | a fresh table counts 0 and its median is 100µs-200µs |
| HistogramTests.TableAddExample | histogram/hist_test.go:9-24 | the three Adds on a real table, then Report, give exactly the expected summary |
| HistogramTests.BenchmarkCount | histogram/hist_test.go:61-69 | any number of 3456µs samples recorded into a new table are all counted |
| HistogramTests.BenchmarkStep | histogram/hist_test.go:63-65 | one more Add of 3456µs extends the recorded run by that sample |
| HistogramTests.BenchmarkExample | histogram/hist_test.go:61-69 | n Adds of 3456µs to a new table give Count() == n |
| HistogramTests.NewExample | histogram/hist_test.go:55-59 | New gives 72 buckets, the last ending at 10000s |

## Left out

- jsbench.go is not part of this model. It sets up the NATS JetStream client, streams, publishers, subscribers, goroutines and flags, and it uses the histogram only through Add and String.
- slowconsumer/slow.go is not part of this model. It runs an embedded NATS server and uses no histogram code.
- Atomicity: `atomic.AddInt64` is modelled as a plain increment of one array cell. Concurrent Adds are not modelled.
- Logging: the log line for a dropped sample is not modelled. `Table.Add` returns a `dropped` flag instead and leaves the table unchanged.
- Integer width: durations and counters are unbounded integers. Overflow of `int64` counters, of `time.Duration`, and of the `int` conversion in Count and nth is not modelled.
- Want: the percent is an integer number of thousandths, and the rank is the exact ceiling. Go computes `math.Ceil(percent / 100 * float64(Count()))` in floating point, and that can differ by one where the product is not exact (for example 99.9% of 1000 samples). Percents that are not whole thousandths are not modelled.
- Reporting: the text rendering of durations and counts (`%s`, `%d`) and the blank line between the two parts are not modelled. The summary is the list of non-empty entries plus the four lines as (prefix, min, max).
- The header comment's claims in histogram/hist.go:3-5 (buckets from 1µs, times up to 2h) describe neither the code nor the model.
