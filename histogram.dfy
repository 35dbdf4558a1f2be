/** The histogram table: a fixed array of buckets whose counters are
    incremented in place. Every method is proved against the functions of
    Buckets, Counting, Ranking and Reporting. */
module Histogram {
  import opened Buckets
  import opened Counting
  import opened Ranking
  import opened Reporting

  class Table {
    const buckets: array<Entry>

    /** The table keeps the bounds the constructor gave it; New establishes
        it and Add keeps it, so callers may apply the lemmas about Shaped
        tables (a sample is dropped exactly when it is 10000s or longer). */
    ghost predicate Valid()
      reads this, buckets
    {
      Shaped(buckets[..])
    }

    /** Builds the 72 buckets decade by decade, appending nine linear buckets
        [i*delta, (i+1)*delta) per decade step delta. */
    constructor New()
      ensures fresh(buckets)
      ensures buckets[..] == Layout()
      ensures Valid()
    {
      var t: seq<Entry> := [];
      var delta := FirstDelta;
      ghost var j: nat := 0;
      while delta < DeltaLimit
        invariant j <= Decades && delta == Delta(j)
        invariant t == Layout()[..j * PerDecade]
      {
        DeltaBelowLimit(j);
        var i := 1;
        while i < 10
          invariant 1 <= i <= 10
          invariant t == Layout()[..j * PerDecade + i - 1]
        {
          ghost var k := j * PerDecade + i - 1;
          assert k % PerDecade == i - 1 && k / PerDecade == j;
          assert Layout()[..k + 1] == Layout()[..k] + [Bucket(k)];
          t := t + [Entry(i * delta, (i + 1) * delta, 0)];
          i := i + 1;
        }
        delta := delta * 10;
        j := j + 1;
      }
      DeltaBelowLimit(j);
      assert t == Layout();
      buckets := new Entry[|t|](k requires 0 <= k < |t| => t[k]);
    }

    /** Records d: the first bucket whose upper bound exceeds d gets one more
        sample; when there is none the sample is dropped and reported so. */
    method Add(d: int) returns (dropped: bool)
      modifies buckets
      ensures buckets[..] == Added(old(buckets[..]), d)
      ensures dropped <==> Slot(old(buckets[..]), d) == buckets.Length
      ensures old(Valid()) ==> Valid()
      ensures old(Valid()) ==> (dropped <==> DeltaLimit <= d)
    {
      ghost var s := buckets[..];
      DroppedWhenValid(s, d);
      var i := 0;
      while i < buckets.Length
        invariant 0 <= i <= buckets.Length
        invariant buckets[..] == s
        invariant forall j :: 0 <= j < i ==> s[j].max <= d
      {
        if d < buckets[i].max {
          SlotUnique(s, d, i);
          buckets[i] := buckets[i].(n := buckets[i].n + 1);
          assert buckets[..] == Added(s, d);
          if Shaped(s) {
            AddedKeepsShape(s, d);
          }
          return false;
        }
        i := i + 1;
      }
      SlotUnique(s, d, i);
      return true;
    }

    /** Adds up the counters. */
    method Count() returns (c: int)
      ensures c == Sum(buckets[..])
    {
      c := 0;
      for i := 0 to buckets.Length
        invariant c == Sum(buckets[..i])
      {
        assert buckets[..i + 1][..i] == buckets[..i];
        c := c + buckets[i].n;
      }
      assert buckets[..buckets.Length] == buckets[..];
    }

    /** Bounds of the first bucket whose running total reaches want, or
        (0, 0) when none does. */
    method Nth(want: int) returns (min: int, max: int)
      ensures (min, max) == NthOf(buckets[..], want)
    {
      var n := 0;
      for i := 0 to buckets.Length
        invariant n == Sum(buckets[..i])
        invariant forall j :: 0 <= j < i ==> Through(buckets[..], j) < want
      {
        assert buckets[..i + 1][..i] == buckets[..i];
        n := n + buckets[i].n;
        assert n == Through(buckets[..], i);
        if n >= want {
          RankUnique(buckets[..], want, i);
          return buckets[i].min, buckets[i].max;
        }
      }
      RankUnique(buckets[..], want, buckets.Length);
      return 0, 0;
    }

    /** The bucket holding the sample of rank ceil(perMille/1000 * Count()). */
    method Percentile(perMille: int) returns (min: int, max: int)
      ensures (min, max) == PercentileOf(buckets[..], perMille)
    {
      var c := Count();
      min, max := Nth(Want(perMille, c));
    }

    /** One percentile line of the summary. */
    method PercentileLine(prefix: string, perMille: int) returns (line: Line)
      ensures line == LineOf(buckets[..], prefix, perMille)
    {
      var min, max := Percentile(perMille);
      line := Line(prefix, min, max);
    }

    /** The summary: every non-empty bucket in order, then the Median, 90%,
        99% and 99.9% lines. */
    method Report() returns (r: Summary)
      ensures r == SummaryOf(buckets[..])
    {
      var listed: seq<Entry> := [];
      for i := 0 to buckets.Length
        invariant listed == NonEmpty(buckets[..i])
      {
        assert buckets[..i + 1][..i] == buckets[..i];
        if buckets[i].n != 0 {
          listed := listed + [buckets[i]];
        }
      }
      assert buckets[..buckets.Length] == buckets[..];
      var median := PercentileLine("Median", 500);
      var p90 := PercentileLine("90%", 900);
      var p99 := PercentileLine("99%", 990);
      var p999 := PercentileLine("99.9%", 999);
      r := Summary(listed, [median, p90, p99, p999]);
    }
  }
}
