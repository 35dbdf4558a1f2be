/** The histogram's tests, proved rather than executed: what a fresh table
    answers, what three and ten recorded samples give, the benchmark's count
    and the table's length. */
module HistogramTests {
  import opened Buckets
  import opened Counting
  import opened Ranking
  import opened Reporting
  import opened Histogram

  /* The lemmas below take the fresh table as a parameter t == Layout() so
     that the verifier does not evaluate Slot and AddAll on the 72 literal
     buckets one by one. */

  /** On the fresh layout, a sample inside bucket k's range goes to bucket k. */
  lemma LayoutSlot(t: seq<Entry>, k: nat, d: int)
    requires t == Layout()
    requires k < Size
    requires Bucket(k).min <= d < Bucket(k).max
    ensures Slot(t, d) == k
  {
    var s := t;
    LayoutShape();
    LayoutContiguous();
    if 0 < k {
      Ordered(s, 0, k);
    }
    if k < Size - 1 {
      Ordered(s, k, Size - 1);
    }
    Coverage(s, d);
  }

  /** Running totals of a fresh table after a run of samples. */
  lemma FreshPrefix(t: seq<Entry>, ds: seq<int>, k: nat)
    requires t == Layout()
    requires k <= Size
    ensures SameBounds(AddAll(t, ds), t)
    ensures Sum(AddAll(t, ds)[..k]) == Landed(t, ds, k)
  {
    LayoutShape();
    SumZero(t[..k]);
    AddAllPrefix(t, ds, k);
  }

  /** Samples landing in consecutive buckets base, base + 1, ...: how many
      fall below bucket k. */
  lemma {:induction false} LandedConsecutive(s: seq<Entry>, ds: seq<int>, base: nat, k: nat)
    requires forall i :: 0 <= i < |ds| ==> Slot(s, ds[i]) == base + i
    ensures Landed(s, ds, k) == if k <= base then 0 else if |ds| <= k - base then |ds| else k - base
    decreases |ds|
  {
    if ds != [] {
      LandedConsecutive(s, ds[1..], base + 1, k);
    }
  }

  /** The samples TestTable_Add records. */
  const TableAddSamples: seq<int> := [Millisecond, 1234 * Microsecond, 4 * Second]

  /** The samples TestTable_Percentile records. */
  const TablePercentileSamples: seq<int> := [
    1 * Millisecond, 2 * Millisecond, 3 * Millisecond, 4 * Millisecond, 5 * Millisecond,
    6 * Millisecond, 7 * Millisecond, 8 * Millisecond, 9 * Millisecond, 10 * Millisecond]

  lemma TableAddSlots(t: seq<Entry>)
    requires t == Layout()
    ensures Slot(t, TableAddSamples[0]) == 9
    ensures Slot(t, TableAddSamples[1]) == 9
    ensures Slot(t, TableAddSamples[2]) == 39
  {
    LayoutSlot(t, 9, TableAddSamples[0]);
    LayoutSlot(t, 9, TableAddSamples[1]);
    LayoutSlot(t, 39, TableAddSamples[2]);
  }

  /** 1ms and 1234µs land in bucket 9 and 4s in bucket 39. */
  lemma TableAddLanded(t: seq<Entry>)
    requires t == Layout()
    ensures forall k: nat :: Landed(t, TableAddSamples, k) == (if 9 < k then 2 else 0) + (if 39 < k then 1 else 0)
  {
    TableAddSlots(t);
    var a1, a2 := TableAddSamples[1..], TableAddSamples[2..];
    assert a1[0] == TableAddSamples[1] && a1[1..] == a2;
    assert a2[0] == TableAddSamples[2] && a2[1..] == [];
    forall k: nat
      ensures Landed(t, TableAddSamples, k) == (if 9 < k then 2 else 0) + (if 39 < k then 1 else 0)
    {
      assert Landed(t, a2, k) == if 39 < k then 1 else 0;
      assert Landed(t, a1, k) == (if 9 < k then 1 else 0) + Landed(t, a2, k);
    }
  }

  /** Recording the three samples one call at a time is AddAll of the run. */
  lemma TableAddState(t: seq<Entry>)
    ensures Added(Added(Added(t, TableAddSamples[0]), TableAddSamples[1]), TableAddSamples[2]) == AddAll(t, TableAddSamples)
  {
    var a1, a2 := TableAddSamples[1..], TableAddSamples[2..];
    assert a1[0] == TableAddSamples[1] && a1[1..] == a2;
    assert a2[0] == TableAddSamples[2] && a2[1..] == [];
    var t1 := Added(t, TableAddSamples[0]);
    var t2 := Added(t1, TableAddSamples[1]);
    var t3 := Added(t2, TableAddSamples[2]);
    assert AddAll(t3, []) == t3;
    assert AddAll(t2, a2) == t3;
    assert AddAll(t1, a1) == t3;
  }

  /** Running totals after 1ms, 1234µs and 4s. */
  lemma TableAddCounts(t: seq<Entry>)
    requires t == Layout()
    ensures SameBounds(AddAll(t, TableAddSamples), t)
    ensures forall k :: 0 <= k <= Size ==>
      Sum(AddAll(t, TableAddSamples)[..k]) == (if 9 < k then 2 else 0) + (if 39 < k then 1 else 0)
  {
    var s := AddAll(t, TableAddSamples);
    TableAddLanded(t);
    FreshPrefix(t, TableAddSamples, 0);
    forall k | 0 <= k <= Size
      ensures Sum(s[..k]) == (if 9 < k then 2 else 0) + (if 39 < k then 1 else 0)
    {
      FreshPrefix(t, TableAddSamples, k);
    }
  }

  /** Counters after 1ms, 1234µs and 4s: two in bucket 9, one in bucket 39. */
  lemma TableAddCounters(t: seq<Entry>)
    requires t == Layout()
    ensures |AddAll(t, TableAddSamples)| == Size
    ensures forall k :: 0 <= k < Size ==>
      AddAll(t, TableAddSamples)[k].n == (if k == 9 then 2 else if k == 39 then 1 else 0)
  {
    var s := AddAll(t, TableAddSamples);
    TableAddCounts(t);
    assert |s| == Size;
    forall k | 0 <= k < Size
      ensures s[k].n == (if k == 9 then 2 else if k == 39 then 1 else 0)
    {
      assert s[..k + 1][..k] == s[..k];
      assert Sum(s[..k + 1]) == Sum(s[..k]) + s[k].n;
    }
  }

  /** 1ms, 1234µs and 4s list two buckets, 1ms-2ms holding 2 and 4s-5s
      holding 1. */
  lemma TableAddListed(t: seq<Entry>)
    requires t == Layout()
    ensures NonEmpty(AddAll(t, TableAddSamples)) ==
      [Entry(1 * Millisecond, 2 * Millisecond, 2), Entry(4 * Second, 5 * Second, 1)]
  {
    var s := AddAll(t, TableAddSamples);
    TableAddCounters(t);
    NamedBuckets();
    FreshBounds(t, TableAddSamples, 9);
    FreshBounds(t, TableAddSamples, 39);
    assert s[9] == Entry(1 * Millisecond, 2 * Millisecond, 2);
    assert s[39] == Entry(4 * Second, 5 * Second, 1);
    NonEmptyTwo(s, 9, 39);
  }

  /** The fresh layout holds Bucket(k) at index k. */
  lemma LayoutAt(t: seq<Entry>, k: nat)
    requires t == Layout() && k < Size
    ensures t[k] == Bucket(k)
  {
  }

  /** The buckets the test scenarios name, with their bounds written out. */
  lemma NamedBuckets()
    ensures Bucket(0) == Entry(100 * Microsecond, 200 * Microsecond, 0)
    ensures Bucket(9) == Entry(1 * Millisecond, 2 * Millisecond, 0)
    ensures Bucket(13) == Entry(5 * Millisecond, 6 * Millisecond, 0)
    ensures Bucket(17) == Entry(9 * Millisecond, 10 * Millisecond, 0)
    ensures Bucket(18) == Entry(10 * Millisecond, 20 * Millisecond, 0)
    ensures Bucket(39) == Entry(4 * Second, 5 * Second, 0)
  {
  }

  /** Bucket bounds after a run of samples into the fresh table. */
  lemma FreshBounds(t: seq<Entry>, ds: seq<int>, k: nat)
    requires t == Layout() && k < Size
    ensures |AddAll(t, ds)| == Size
    ensures AddAll(t, ds)[k].min == Bucket(k).min && AddAll(t, ds)[k].max == Bucket(k).max
  {
    FreshPrefix(t, ds, 0);
    LayoutAt(t, k);
  }

  /** Running totals the percentile queries need after 1ms, 1234µs and 4s. */
  lemma TableAddTotals(t: seq<Entry>)
    requires t == Layout()
    ensures |AddAll(t, TableAddSamples)| == Size
    ensures Sum(AddAll(t, TableAddSamples)) == 3
    ensures Sum(AddAll(t, TableAddSamples)[..9]) == 0 && Sum(AddAll(t, TableAddSamples)[..10]) == 2
    ensures Sum(AddAll(t, TableAddSamples)[..39]) == 2 && Sum(AddAll(t, TableAddSamples)[..40]) == 3
  {
    var s := AddAll(t, TableAddSamples);
    TableAddLanded(t);
    FreshPrefix(t, TableAddSamples, 9);
    FreshPrefix(t, TableAddSamples, 10);
    FreshPrefix(t, TableAddSamples, 39);
    FreshPrefix(t, TableAddSamples, 40);
    FreshPrefix(t, TableAddSamples, Size);
    assert s[..Size] == s;
  }

  /** After 1ms, 1234µs and 4s the median is 1ms-2ms and the 90%, 99% and
      99.9% percentiles are 4s-5s. */
  lemma TableAddPercentiles(t: seq<Entry>)
    requires t == Layout()
    ensures PercentileOf(AddAll(t, TableAddSamples), 500) == (1 * Millisecond, 2 * Millisecond)
    ensures PercentileOf(AddAll(t, TableAddSamples), 900) == (4 * Second, 5 * Second)
    ensures PercentileOf(AddAll(t, TableAddSamples), 990) == (4 * Second, 5 * Second)
    ensures PercentileOf(AddAll(t, TableAddSamples), 999) == (4 * Second, 5 * Second)
  {
    var s := AddAll(t, TableAddSamples);
    TableAddTotals(t);
    NamedBuckets();
    FreshBounds(t, TableAddSamples, 9);
    FreshBounds(t, TableAddSamples, 39);
    RankAt(s, 2, 9);
    RankAt(s, 3, 39);
    assert Want(500, 3) == 2;
    assert Want(900, 3) == 3 && Want(990, 3) == 3 && Want(999, 3) == 3;
  }

  /** The whole summary TestTable_Add expects. */
  lemma TableAddSummary(t: seq<Entry>)
    requires t == Layout()
    ensures SummaryOf(AddAll(t, TableAddSamples)) == Summary(
      [Entry(1 * Millisecond, 2 * Millisecond, 2), Entry(4 * Second, 5 * Second, 1)],
      [Line("Median", 1 * Millisecond, 2 * Millisecond), Line("90%", 4 * Second, 5 * Second),
       Line("99%", 4 * Second, 5 * Second), Line("99.9%", 4 * Second, 5 * Second)])
  {
    TableAddListed(t);
    TableAddPercentiles(t);
  }

  lemma TablePercentileSlots(t: seq<Entry>)
    requires t == Layout()
    ensures forall i :: 0 <= i < |TablePercentileSamples| ==> Slot(t, TablePercentileSamples[i]) == 9 + i
  {
    forall i | 0 <= i < |TablePercentileSamples|
      ensures Slot(t, TablePercentileSamples[i]) == 9 + i
    {
      if i < 9 {
        assert (9 + i) % PerDecade == i && (9 + i) / PerDecade == 1;
      } else {
        assert (9 + i) % PerDecade == 0 && (9 + i) / PerDecade == 2;
      }
      LayoutSlot(t, 9 + i, TablePercentileSamples[i]);
    }
  }

  /** Running totals after the ten samples 1ms..10ms. */
  lemma TablePercentileCounts(t: seq<Entry>)
    requires t == Layout()
    ensures SameBounds(AddAll(t, TablePercentileSamples), t)
    ensures forall k :: 0 <= k <= Size ==>
      Sum(AddAll(t, TablePercentileSamples)[..k]) == if k <= 9 then 0 else if 19 <= k then 10 else k - 9
  {
    var s := AddAll(t, TablePercentileSamples);
    TablePercentileSlots(t);
    FreshPrefix(t, TablePercentileSamples, 0);
    forall k | 0 <= k <= Size
      ensures Sum(s[..k]) == if k <= 9 then 0 else if 19 <= k then 10 else k - 9
    {
      FreshPrefix(t, TablePercentileSamples, k);
      LandedConsecutive(t, TablePercentileSamples, 9, k);
    }
  }

  /** Ten samples 1ms..10ms: the median is 5ms-6ms, 90% is 9ms-10ms, and
      99% and 100% are 10ms-20ms, the next decade's first bucket. */
  lemma TablePercentileAnswers(t: seq<Entry>)
    requires t == Layout()
    ensures PercentileOf(AddAll(t, TablePercentileSamples), 500) == (5 * Millisecond, 6 * Millisecond)
    ensures PercentileOf(AddAll(t, TablePercentileSamples), 900) == (9 * Millisecond, 10 * Millisecond)
    ensures PercentileOf(AddAll(t, TablePercentileSamples), 990) == (10 * Millisecond, 20 * Millisecond)
    ensures PercentileOf(AddAll(t, TablePercentileSamples), 1000) == (10 * Millisecond, 20 * Millisecond)
  {
    var s := AddAll(t, TablePercentileSamples);
    TablePercentileCounts(t);
    assert |s| == Size;
    assert s[..Size] == s;
    assert Sum(s) == 10;
    assert Sum(s[..13]) == 4 && Sum(s[..14]) == 5;
    assert Sum(s[..17]) == 8 && Sum(s[..18]) == 9;
    assert Sum(s[..18]) == 9 && Sum(s[..19]) == 10;
    NamedBuckets();
    FreshBounds(t, TablePercentileSamples, 13);
    FreshBounds(t, TablePercentileSamples, 17);
    FreshBounds(t, TablePercentileSamples, 18);
    RankAt(s, 5, 13);
    RankAt(s, 9, 17);
    RankAt(s, 10, 18);
    assert Want(500, 10) == 5;
    assert Want(900, 10) == 9;
    assert Want(990, 10) == 10 && Want(1000, 10) == 10;
  }

  /** A fresh table counts nothing; its median is the first bucket,
      100µs-200µs, because Want is 0 there. */
  lemma FreshTableAnswers()
    ensures Sum(Layout()) == 0
    ensures PercentileOf(Layout(), 500) == (100 * Microsecond, 200 * Microsecond)
  {
    LayoutShape();
    FreshCount();
    EmptyPercentile(Layout(), 500);
  }

  /** Where the answer does not bracket the sample: one 50µs sample is below
      every bucket, yet it is counted in the first one, so the median answers
      100µs-200µs, a range that does not contain it. */
  lemma LowSampleMedian(t: seq<Entry>)
    requires t == Layout()
    ensures PercentileOf(AddAll(t, [50 * Microsecond]), 500) == (100 * Microsecond, 200 * Microsecond)
    ensures 50 * Microsecond < PercentileOf(AddAll(t, [50 * Microsecond]), 500).0
  {
    var d := 50 * Microsecond;
    var s := AddAll(t, [d]);
    NamedBuckets();
    LayoutAt(t, 0);
    LowSamplesInFirstBucket(t, d);
    assert [d][0] == d && [d][1..] == [];
    assert s == AddAll(Added(t, d), []);
    FreshCount();
    AddedSum(t, d);
    AddedFrame(t, d);
    assert s[..1] == [s[0]] && [s[0]][..0] == [];
    assert Want(500, 1) == 1;
    RankAt(s, 1, 0);
  }

  /** TestTable_Add run on a real table. */
  method TableAddExample() returns (r: Summary)
    ensures r == Summary(
      [Entry(1 * Millisecond, 2 * Millisecond, 2), Entry(4 * Second, 5 * Second, 1)],
      [Line("Median", 1 * Millisecond, 2 * Millisecond), Line("90%", 4 * Second, 5 * Second),
       Line("99%", 4 * Second, 5 * Second), Line("99.9%", 4 * Second, 5 * Second)])
  {
    var h := new Table.New();
    var _ := h.Add(Millisecond);
    var _ := h.Add(1234 * Microsecond);
    var _ := h.Add(4 * Second);
    TableAddState(Layout());
    r := h.Report();
    TableAddSummary(Layout());
  }

  /** Every sample of ds is d. */
  ghost predicate Repeated(ds: seq<int>, d: int)
  {
    forall j :: 0 <= j < |ds| ==> ds[j] == d
  }

  /** Samples of 3456µs recorded into a fresh table are all counted. */
  lemma BenchmarkCount(ds: seq<int>)
    requires Repeated(ds, 3456 * Microsecond)
    ensures Sum(AddAll(Layout(), ds)) == |ds|
  {
    FreshAddsCount(ds);
  }

  /** One more recorded sample of 3456µs. */
  lemma BenchmarkStep(ds: seq<int>)
    requires Repeated(ds, 3456 * Microsecond)
    ensures Repeated(ds + [3456 * Microsecond], 3456 * Microsecond)
    ensures AddAll(Layout(), ds + [3456 * Microsecond]) == Added(AddAll(Layout(), ds), 3456 * Microsecond)
  {
    AddAllSnoc(Layout(), ds, 3456 * Microsecond);
  }

  /** The benchmark's loop: n samples of 3456µs into a fresh table give
      Count() == n. */
  method BenchmarkExample(n: nat) returns (c: int)
    ensures c == n
  {
    var h := new Table.New();
    ghost var ds: seq<int> := [];
    for i := 0 to n
      invariant |ds| == i && Repeated(ds, 3456 * Microsecond)
      invariant h.buckets[..] == AddAll(Layout(), ds)
    {
      var _ := h.Add(3456 * Microsecond);
      BenchmarkStep(ds);
      ds := ds + [3456 * Microsecond];
    }
    BenchmarkCount(ds);
    c := h.Count();
  }

  /** The table New builds has 72 buckets, the last ending at 10000s. */
  method NewExample() returns (length: int, top: int)
    ensures length == 72 && top == 10_000 * Second
  {
    var h := new Table.New();
    LayoutShape();
    length := h.buckets.Length;
    top := h.buckets[length - 1].max;
  }
}
