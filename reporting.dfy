/** The table's text summary, as structure: the non-empty buckets in table
    order, then the four percentile lines. The rendering of durations as text
    is not part of this model. */
module Reporting {
  import opened Buckets
  import opened Counting
  import opened Ranking

  /** One percentile line: its prefix and the bounds Percentile answered. */
  datatype Line = Line(prefix: string, min: int, max: int)

  /** The summary: the listed buckets, then the percentile lines. */
  datatype Summary = Summary(buckets: seq<Entry>, percentiles: seq<Line>)

  /** The buckets the summary lists: those with a non-zero counter, in order.
      Together they hold every sample of the table. */
  function NonEmpty(s: seq<Entry>): seq<Entry>
  {
    if s == [] then []
    else
      var last := s[|s| - 1];
      var front := NonEmpty(s[..|s| - 1]);
      if last.n == 0 then front else front + [last]
  }

  /** The line for one mark. */
  function LineOf(s: seq<Entry>, prefix: string, perMille: int): Line
  {
    var (lo, hi) := PercentileOf(s, perMille);
    Line(prefix, lo, hi)
  }

  /** The whole summary of a table. */
  function SummaryOf(s: seq<Entry>): Summary
  {
    Summary(NonEmpty(s), [LineOf(s, "Median", 500), LineOf(s, "90%", 900), LineOf(s, "99%", 990), LineOf(s, "99.9%", 999)])
  }

  /** The listed buckets hold every sample of the table, and there are no
      more of them than buckets. */
  lemma {:induction false} NonEmptyTotal(s: seq<Entry>)
    ensures Sum(NonEmpty(s)) == Sum(s)
    ensures |NonEmpty(s)| <= |s|
  {
    if s != [] {
      var last, front := s[|s| - 1], NonEmpty(s[..|s| - 1]);
      NonEmptyTotal(s[..|s| - 1]);
      if last.n != 0 {
        assert (front + [last])[..|front|] == front;
      }
    }
  }

  /** The summary lists a bucket exactly when the table has it with a
      non-zero counter. */
  lemma {:induction false} NonEmptyMembers(s: seq<Entry>)
    ensures forall e :: e in NonEmpty(s) <==> e in s && e.n > 0
  {
    if s != [] {
      var front := s[..|s| - 1];
      NonEmptyMembers(front);
      assert s == front + [s[|s| - 1]];
    }
  }

  lemma {:induction false} NonEmptyAppend(a: seq<Entry>, b: seq<Entry>)
    ensures NonEmpty(a + b) == NonEmpty(a) + NonEmpty(b)
    decreases |b|
  {
    if b == [] {
      assert a + b == a;
    } else {
      var b' := b[..|b| - 1];
      assert (a + b)[..|a + b| - 1] == a + b';
      NonEmptyAppend(a, b');
    }
  }

  /** No bucket of s holds a sample. */
  ghost predicate Zero(s: seq<Entry>)
  {
    forall k :: 0 <= k < |s| ==> s[k].n == 0
  }

  lemma {:induction false} NonEmptyZero(s: seq<Entry>)
    requires Zero(s)
    ensures NonEmpty(s) == []
  {
    if s != [] {
      NonEmptyZero(s[..|s| - 1]);
    }
  }

  lemma NonEmptyOne(e: Entry)
    requires e.n > 0
    ensures NonEmpty([e]) == [e]
  {
    assert [e][..0] == [];
  }

  /** Bucket a is the one non-empty bucket of s. */
  ghost predicate Only(s: seq<Entry>, a: nat)
  {
    && a < |s| && s[a].n > 0
    && forall k :: 0 <= k < |s| && k != a ==> s[k].n == 0
  }

  /** A table whose only non-empty bucket is a lists exactly that one. */
  lemma NonEmptyOnly(s: seq<Entry>, a: nat)
    requires Only(s, a)
    ensures NonEmpty(s) == [s[a]]
  {
    var p, r := s[..a], s[a + 1..];
    assert s == p + [s[a]] + r;
    assert Zero(p) && Zero(r);
    NonEmptyZero(p);
    NonEmptyZero(r);
    NonEmptyOne(s[a]);
    NonEmptyAppend(p, [s[a]]);
    assert NonEmpty(p + [s[a]]) == [s[a]];
    NonEmptyAppend(p + [s[a]], r);
    assert NonEmpty(p + [s[a]] + r) == [s[a]];
  }

  /** Cutting a table with two non-empty buckets a < b at b leaves one
      non-empty bucket on each side. */
  lemma SplitTwo(s: seq<Entry>, a: nat, b: nat)
    requires a < b < |s|
    requires s[a].n > 0 && s[b].n > 0
    requires forall k :: 0 <= k < |s| && k != a && k != b ==> s[k].n == 0
    ensures Only(s[..b], a) && Only(s[b..], 0)
  {
    var u, v := s[..b], s[b..];
    forall k | 0 <= k < |u| && k != a
      ensures u[k].n == 0
    {
      assert u[k] == s[k];
    }
    forall k | 0 < k < |v|
      ensures v[k].n == 0
    {
      assert v[k] == s[b + k];
    }
  }

  /** A table whose only non-empty buckets are a and b lists exactly those two. */
  lemma NonEmptyTwo(s: seq<Entry>, a: nat, b: nat)
    requires a < b < |s|
    requires s[a].n > 0 && s[b].n > 0
    requires forall k :: 0 <= k < |s| && k != a && k != b ==> s[k].n == 0
    ensures NonEmpty(s) == [s[a], s[b]]
  {
    var u, v := s[..b], s[b..];
    assert s == u + v;
    SplitTwo(s, a, b);
    NonEmptyOnly(u, a);
    NonEmptyOnly(v, 0);
    NonEmptyAppend(u, v);
  }
}
