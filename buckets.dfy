/** The bucket layout built by the histogram's constructor.

    Durations are nanoseconds, as Go's time.Duration. The constructor walks a
    decade step `delta` from 100µs upwards, multiplying by ten while it stays
    below 10000s, and gives every decade the nine linear buckets
    [i*delta, (i+1)*delta) for i = 1..9. */
module Buckets {

  const Microsecond: int := 1_000
  const Millisecond: int := 1_000_000
  const Second: int := 1_000_000_000

  /** The first decade step, 100µs. */
  const FirstDelta: int := 100 * Microsecond
  /** The decade loop runs while delta is below this bound, 10000s. */
  const DeltaLimit: int := 10_000 * Second
  /** Number of decades the loop visits (100µs, 1ms, ..., 1000s). */
  const Decades: nat := 8
  /** Linear buckets per decade. */
  const PerDecade: nat := 9
  const Size: nat := Decades * PerDecade

  /** One bucket: the half-open range [min, max) and its counter. */
  datatype Entry = Entry(min: int, max: int, n: nat)

  function Pow10(j: nat): (r: int)
    ensures r >= 1
  {
    if j == 0 then 1 else 10 * Pow10(j - 1)
  }

  /** The decade step after j multiplications by ten. */
  function Delta(j: nat): int
  {
    FirstDelta * Pow10(j)
  }

  /** The k-th bucket the constructor appends: the (k % 9 + 1)-th linear
      bucket of decade k / 9, with a zero counter. */
  function Bucket(k: nat): Entry
  {
    Entry((k % PerDecade + 1) * Delta(k / PerDecade), (k % PerDecade + 2) * Delta(k / PerDecade), 0)
  }

  /** The whole table as the constructor leaves it. */
  function Layout(): seq<Entry>
  {
    seq(Size, k requires 0 <= k => Bucket(k))
  }

  /** Well-formed bucket sequence: every range is non-empty and each bucket
      starts where the previous one ends. */
  ghost predicate Contiguous(s: seq<Entry>)
  {
    && (forall k :: 0 <= k < |s| ==> s[k].min < s[k].max)
    && (forall k :: 0 < k < |s| ==> s[k - 1].max == s[k].min)
  }

  /** Same bounds as the constructor's layout; counters are free. */
  ghost predicate Shaped(s: seq<Entry>)
  {
    && |s| == Size
    && forall k :: 0 <= k < |s| ==> s[k].min == Bucket(k).min && s[k].max == Bucket(k).max
  }

  /** Two tables with the same bucket bounds (counters may differ). */
  ghost predicate SameBounds(r: seq<Entry>, s: seq<Entry>)
  {
    && |r| == |s|
    && forall k :: 0 <= k < |s| ==> r[k].min == s[k].min && r[k].max == s[k].max
  }

  lemma {:induction false} Pow10Mono(i: nat, j: nat)
    requires i <= j
    ensures Pow10(i) <= Pow10(j)
  {
    if i < j {
      Pow10Mono(i, j - 1);
    }
  }

  /** The decade loop stays below its bound for exactly the first eight steps. */
  lemma DeltaBelowLimit(j: nat)
    ensures Delta(j) < DeltaLimit <==> j < Decades
  {
    if j < Decades {
      Pow10Mono(j, Decades - 1);
    } else {
      Pow10Mono(Decades, j);
    }
  }

  /** Every bucket of the layout is a non-empty range of positive durations. */
  lemma BucketNonEmpty(k: nat)
    ensures 0 < Bucket(k).min < Bucket(k).max
  {
    var i, u := k % PerDecade + 1, Delta(k / PerDecade);
    assert u > 0;
    assert (i + 1) * u == i * u + u;
    assert i * u >= u;
  }

  /** Bucket k ends where bucket k + 1 starts, also across a decade boundary,
      because ten times one step is the next decade's step. */
  lemma BucketStep(k: nat)
    ensures Bucket(k).max == Bucket(k + 1).min
  {
    var i, j := k % PerDecade, k / PerDecade;
    if i < PerDecade - 1 {
      assert (k + 1) % PerDecade == i + 1 && (k + 1) / PerDecade == j;
    } else {
      assert (k + 1) % PerDecade == 0 && (k + 1) / PerDecade == j + 1;
      assert Delta(j + 1) == 10 * Delta(j);
    }
  }

  /** The layout has 72 buckets from 100µs up to 10000s, all counters zero. */
  lemma LayoutShape()
    ensures |Layout()| == 72
    ensures Layout()[0].min == 100 * Microsecond
    ensures Layout()[|Layout()| - 1].max == 10_000 * Second
    ensures forall k :: 0 <= k < |Layout()| ==> Layout()[k].n == 0
  {
    assert Layout()[71] == Bucket(71);
    assert 71 % PerDecade == 8 && 71 / PerDecade == 7;
    assert Pow10(7) == 10_000_000;
  }

  /** The layout is contiguous: sorted, non-overlapping and without gaps. */
  lemma LayoutContiguous()
    ensures Contiguous(Layout())
  {
    var s := Layout();
    forall k | 0 <= k < |s|
      ensures s[k].min < s[k].max
    {
      BucketNonEmpty(k);
    }
    forall k | 0 < k < |s|
      ensures s[k - 1].max == s[k].min
    {
      BucketStep(k - 1);
    }
  }

  /** Contiguity depends on the bounds only. */
  lemma SameBoundsContiguous(r: seq<Entry>, s: seq<Entry>)
    requires SameBounds(r, s) && Contiguous(s)
    ensures Contiguous(r)
  {
    forall k | 0 < k < |r|
      ensures r[k - 1].max == r[k].min
    {
      assert s[k - 1].max == s[k].min;
    }
  }

  /** Every table with the constructor's bounds is contiguous. */
  lemma ShapedIsContiguous(s: seq<Entry>)
    requires Shaped(s)
    ensures SameBounds(s, Layout())
    ensures Contiguous(s)
  {
    var t := Layout();
    forall k | 0 <= k < |s|
      ensures s[k].min == t[k].min && s[k].max == t[k].max
    {
      assert t[k] == Bucket(k);
    }
    LayoutContiguous();
    SameBoundsContiguous(s, t);
  }

  /** In a contiguous table a bucket ends no later than any later bucket starts. */
  lemma {:induction false} Ordered(s: seq<Entry>, i: nat, j: nat)
    requires Contiguous(s)
    requires i < j < |s|
    ensures s[i].max <= s[j].min
  {
    if i + 1 < j {
      Ordered(s, i, j - 1);
    }
  }
}
