/** Rank queries: the table's nth and Percentile. A percent is taken as an
    integer number of thousandths (per mille), so 99.9% is 999. */
module Ranking {
  import opened Buckets
  import opened Counting

  /** Per-mille denominator of a percentile argument. */
  const PerMille: int := 1000

  /** First bucket from i on whose running total reaches want, or |s|. */
  function RankFrom(s: seq<Entry>, want: int, i: nat): (k: nat)
    requires i <= |s|
    decreases |s| - i
    ensures i <= k <= |s|
    ensures forall j :: i <= j < k ==> Through(s, j) < want
    ensures k < |s| ==> want <= Through(s, k)
  {
    if i == |s| then |s|
    else if want <= Through(s, i) then i
    else RankFrom(s, want, i + 1)
  }

  /** Index of the first bucket whose running total reaches want, or |s|
      when no bucket does. */
  function Rank(s: seq<Entry>, want: int): (k: nat)
    ensures k <= |s|
    ensures forall j :: 0 <= j < k ==> Through(s, j) < want
    ensures k < |s| ==> want <= Through(s, k)
  {
    RankFrom(s, want, 0)
  }

  /** Bounds of bucket Rank(s, want), or the sentinel (0, 0). */
  function NthOf(s: seq<Entry>, want: int): (int, int)
  {
    var k := Rank(s, want);
    if k < |s| then (s[k].min, s[k].max) else (0, 0)
  }

  /** Target rank of a percentile: the ceiling of perMille/1000 of total. */
  function Want(perMille: int, total: nat): (w: int)
    ensures PerMille * (w - 1) < perMille * total <= PerMille * w
  {
    (perMille * total + PerMille - 1) / PerMille
  }

  /** What Percentile answers on a table s. */
  function PercentileOf(s: seq<Entry>, perMille: int): (int, int)
  {
    NthOf(s, Want(perMille, Sum(s)))
  }

  /** Rank is the only index that is "first to reach want". */
  lemma RankUnique(s: seq<Entry>, want: int, k: nat)
    requires k <= |s|
    requires forall j :: 0 <= j < k ==> Through(s, j) < want
    requires k < |s| ==> want <= Through(s, k)
    ensures Rank(s, want) == k
  {
  }

  /** Rank is k when want lies above the total before bucket k and within the
      total through it. */
  lemma RankAt(s: seq<Entry>, want: int, k: nat)
    requires k < |s|
    requires Sum(s[..k]) < want <= Through(s, k)
    ensures Rank(s, want) == k
    ensures NthOf(s, want) == (s[k].min, s[k].max)
  {
    forall j | 0 <= j < k
      ensures Through(s, j) < want
    {
      PrefixMono(s, j + 1, k);
    }
    RankUnique(s, want, k);
  }

  /** A running total never exceeds the table's total. */
  lemma ThroughAtMostSum(s: seq<Entry>, j: nat)
    requires j < |s|
    ensures Through(s, j) <= Sum(s)
  {
    PrefixMono(s, j + 1, |s|);
    assert s[..|s|] == s;
  }

  /** On a non-empty table nth finds no bucket exactly when want exceeds
      Count; it then answers the sentinel (0, 0). */
  lemma NthSentinel(s: seq<Entry>, want: int)
    ensures Rank(s, want) == |s| <==> s == [] || Sum(s) < want
    ensures Sum(s) < want ==> NthOf(s, want) == (0, 0)
  {
    if s != [] {
      var k := Rank(s, want);
      if k < |s| {
        ThroughAtMostSum(s, k);
      } else {
        assert Through(s, |s| - 1) < want;
        assert s[..|s|] == s;
      }
    }
  }

  /** A non-positive want is met by the first bucket, whatever the counters. */
  lemma NthNonPositive(s: seq<Entry>, want: int)
    requires |s| > 0 && want <= 0
    ensures Rank(s, want) == 0
    ensures NthOf(s, want) == (s[0].min, s[0].max)
  {
    RankUnique(s, want, 0);
  }

  /** A larger want never gives an earlier bucket. */
  lemma RankMono(s: seq<Entry>, w1: int, w2: int)
    requires w1 <= w2
    ensures Rank(s, w1) <= Rank(s, w2)
  {
    var k2 := Rank(s, w2);
    if k2 < |s| {
      assert w1 <= Through(s, k2);
    }
  }

  /** The bucket a positive want selects holds the want-th smallest sample:
      fewer than want samples come before it, and it is not empty. */
  lemma RankBrackets(s: seq<Entry>, want: int)
    requires 0 < want <= Sum(s)
    ensures Rank(s, want) < |s|
    ensures Sum(s[..Rank(s, want)]) < want <= Through(s, Rank(s, want))
    ensures s[Rank(s, want)].n > 0
  {
    NthSentinel(s, want);
    var k := Rank(s, want);
    if k > 0 {
      assert Through(s, k - 1) < want;
      assert s[..k - 1 + 1] == s[..k];
    }
    assert s[..k + 1][..k] == s[..k];
  }

  /** A larger percentile never asks for a smaller rank, and no percentile
      up to 100% asks for more than the total. */
  lemma WantMono(p1: int, p2: int, total: nat)
    requires p1 <= p2
    ensures Want(p1, total) <= Want(p2, total)
    ensures p2 <= PerMille ==> Want(p2, total) <= total
  {
    assert p2 * total - p1 * total == (p2 - p1) * total;
    if p2 <= PerMille {
      assert PerMille * total - p2 * total == (PerMille - p2) * total;
    }
  }

  /** A positive percent of a positive total asks for a positive rank. */
  lemma WantPositive(perMille: int, total: nat)
    requires 0 < perMille && 0 < total
    ensures 0 < Want(perMille, total)
  {
    assert perMille * total >= total by {
      assert perMille * total == (perMille - 1) * total + total;
    }
  }

  /** Percentiles are monotone: on a well-formed table a larger percentile
      (up to 100%) gives a bucket that starts and ends no earlier. */
  lemma PercentileMonotone(s: seq<Entry>, p1: int, p2: int)
    requires Contiguous(s) && |s| > 0
    requires p1 <= p2 <= PerMille
    ensures PercentileOf(s, p1).0 <= PercentileOf(s, p2).0
    ensures PercentileOf(s, p1).1 <= PercentileOf(s, p2).1
  {
    var w1, w2 := Want(p1, Sum(s)), Want(p2, Sum(s));
    WantMono(p1, p2, Sum(s));
    RankMono(s, w1, w2);
    NthSentinel(s, w2);
    var k1, k2 := Rank(s, w1), Rank(s, w2);
    if k1 < k2 {
      Ordered(s, k1, k2);
    }
  }

  /** On a table with samples, a percentile in (0, 100%] names a non-empty
      bucket holding the sample of rank Want(p, Count). */
  lemma PercentileBrackets(s: seq<Entry>, perMille: int)
    requires 0 < perMille <= PerMille && Sum(s) > 0
    ensures Rank(s, Want(perMille, Sum(s))) < |s|
    ensures PercentileOf(s, perMille) == (s[Rank(s, Want(perMille, Sum(s)))].min, s[Rank(s, Want(perMille, Sum(s)))].max)
    ensures s[Rank(s, Want(perMille, Sum(s)))].n > 0
  {
    WantMono(perMille, perMille, Sum(s));
    assert perMille * Sum(s) > 0;
    RankBrackets(s, Want(perMille, Sum(s)));
  }

  /** Samples inside the range of a contiguous table without samples,
      recorded into it: running totals before and through bucket k count the
      samples below its lower and its upper bound. */
  lemma RecordedBelow(t: seq<Entry>, ds: seq<int>, k: nat)
    requires Contiguous(t) && k < |t|
    requires forall j :: 0 <= j < |t| ==> t[j].n == 0
    requires forall i :: 0 <= i < |ds| ==> t[0].min <= ds[i] < t[|t| - 1].max
    ensures Sum(AddAll(t, ds)[..k]) == Below(ds, t[k].min)
    ensures Through(AddAll(t, ds), k) == Below(ds, t[k].max)
  {
    AddAllPrefix(t, ds, k);
    AddAllPrefix(t, ds, k + 1);
    SumZero(t[..k]);
    SumZero(t[..k + 1]);
    LandedBelow(t, ds, k);
  }

  /** The same samples recorded into that table are all counted. */
  lemma RecordedAll(t: seq<Entry>, ds: seq<int>)
    requires Contiguous(t) && |t| > 0
    requires forall j :: 0 <= j < |t| ==> t[j].n == 0
    requires forall i :: 0 <= i < |ds| ==> t[0].min <= ds[i] < t[|t| - 1].max
    ensures Sum(AddAll(t, ds)) == |ds|
  {
    forall i | 0 <= i < |ds|
      ensures Slot(t, ds[i]) < |t|
    {
      DroppedIffBeyondLast(t, ds[i]);
    }
    LandedAll(t, ds);
    SumZero(t);
    AddAllSum(t, ds);
  }

  /** On such a table the bucket a percentile in (0, 100%] answers brackets
      the sample of rank Want: fewer than Want samples are shorter than its
      lower bound, and at least Want are shorter than its upper bound. */
  lemma PercentileHoldsRankOn(t: seq<Entry>, ds: seq<int>, perMille: int)
    requires Contiguous(t) && |t| > 0
    requires forall j :: 0 <= j < |t| ==> t[j].n == 0
    requires forall i :: 0 <= i < |ds| ==> t[0].min <= ds[i] < t[|t| - 1].max
    requires |ds| > 0 && 0 < perMille <= PerMille
    ensures Below(ds, PercentileOf(AddAll(t, ds), perMille).0) < Want(perMille, |ds|)
    ensures Want(perMille, |ds|) <= Below(ds, PercentileOf(AddAll(t, ds), perMille).1)
  {
    var s := AddAll(t, ds);
    RecordedAll(t, ds);
    AddAllPrefix(t, ds, 0);
    var w := Want(perMille, |ds|);
    WantMono(perMille, perMille, |ds|);
    WantPositive(perMille, |ds|);
    RankBrackets(s, w);
    var k := Rank(s, w);
    RecordedBelow(t, ds, k);
  }

  /** Samples between 100µs and 10000s recorded into a fresh table: the
      answer of a percentile in (0, 100%] brackets the sample of rank Want. */
  lemma PercentileHoldsRank(ds: seq<int>, perMille: int)
    requires |ds| > 0 && 0 < perMille <= PerMille
    requires forall i :: 0 <= i < |ds| ==> FirstDelta <= ds[i] < DeltaLimit
    ensures Below(ds, PercentileOf(AddAll(Layout(), ds), perMille).0) < Want(perMille, |ds|)
    ensures Want(perMille, |ds|) <= Below(ds, PercentileOf(AddAll(Layout(), ds), perMille).1)
  {
    LayoutShape();
    LayoutContiguous();
    PercentileHoldsRankOn(Layout(), ds, perMille);
  }

  /** On a table without samples every percentile names the first bucket:
      Want is 0 and the first running total reaches it. */
  lemma EmptyPercentile(s: seq<Entry>, perMille: int)
    requires |s| > 0 && Sum(s) == 0
    ensures PercentileOf(s, perMille) == (s[0].min, s[0].max)
  {
    NthNonPositive(s, 0);
  }
}
