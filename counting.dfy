/** Recording a sample and counting samples: what the table's Add and Count do
    to a sequence of buckets. */
module Counting {
  import opened Buckets

  /** Sum of the counters, added up from the first bucket on. */
  function Sum(s: seq<Entry>): nat
  {
    if s == [] then 0 else Sum(s[..|s| - 1]) + s[|s| - 1].n
  }

  /** Running total of the counters up to and including bucket j. */
  function Through(s: seq<Entry>, j: nat): nat
    requires j < |s|
  {
    Sum(s[..j + 1])
  }

  /** The bucket a sample d goes to: the first whose upper bound exceeds d,
      or |s| when no bucket does. Lower bounds are never consulted. */
  function Slot(s: seq<Entry>, d: int): (k: nat)
    ensures k <= |s|
    ensures forall j :: 0 <= j < k ==> s[j].max <= d
    ensures k < |s| ==> d < s[k].max
  {
    if s == [] then 0
    else if d < s[0].max then 0
    else 1 + Slot(s[1..], d)
  }

  /** The table after recording d: the counter of bucket Slot(s, d) is one
      higher, or nothing changes when d is beyond the last bucket. */
  function Added(s: seq<Entry>, d: int): (r: seq<Entry>)
    ensures |r| == |s|
  {
    var k := Slot(s, d);
    if k < |s| then s[k := s[k].(n := s[k].n + 1)] else s
  }

  /** The table after recording every sample of ds, in order. */
  function AddAll(s: seq<Entry>, ds: seq<int>): (r: seq<Entry>)
    decreases |ds|
    ensures |r| == |s|
  {
    if ds == [] then s else AddAll(Added(s, ds[0]), ds[1..])
  }

  /** How many samples of ds are shorter than x. */
  function Below(ds: seq<int>, x: int): nat
  {
    if ds == [] then 0
    else (if ds[0] < x then 1 else 0) + Below(ds[1..], x)
  }

  /** How many samples of ds land in one of the first k buckets of s. */
  function Landed(s: seq<Entry>, ds: seq<int>, k: nat): nat
  {
    if ds == [] then 0
    else (if Slot(s, ds[0]) < k then 1 else 0) + Landed(s, ds[1..], k)
  }

  /** Slot is the only index that is "first with d < max". */
  lemma SlotUnique(s: seq<Entry>, d: int, k: nat)
    requires k <= |s|
    requires forall j :: 0 <= j < k ==> s[j].max <= d
    requires k < |s| ==> d < s[k].max
    ensures Slot(s, d) == k
  {
  }

  /** Slot depends on the upper bounds only, never on the counters. */
  lemma SlotSameBounds(r: seq<Entry>, s: seq<Entry>, d: int)
    requires SameBounds(r, s)
    ensures Slot(r, d) == Slot(s, d)
  {
    var k := Slot(s, d);
    SlotUnique(r, d, k);
  }

  /** A sample is dropped exactly when it is at or beyond the last bucket's
      upper bound. */
  lemma DroppedIffBeyondLast(s: seq<Entry>, d: int)
    requires Contiguous(s) && |s| > 0
    ensures Slot(s, d) == |s| <==> s[|s| - 1].max <= d
  {
    var k, last := Slot(s, d), |s| - 1;
    if k == |s| {
      assert s[last].max <= d;
    } else if k < last {
      Ordered(s, k, last);
      assert d < s[k].max <= s[last].min < s[last].max;
    } else {
      assert d < s[last].max;
    }
  }

  /** Inside [first min, last max) a sample lands in the one bucket whose
      range contains it. */
  lemma Coverage(s: seq<Entry>, d: int)
    requires Contiguous(s) && |s| > 0
    requires s[0].min <= d < s[|s| - 1].max
    ensures Slot(s, d) < |s|
    ensures s[Slot(s, d)].min <= d < s[Slot(s, d)].max
    ensures forall j :: 0 <= j < |s| && s[j].min <= d < s[j].max ==> j == Slot(s, d)
  {
    DroppedIffBeyondLast(s, d);
    var k := Slot(s, d);
    if k > 0 {
      assert s[k - 1].max == s[k].min;
    }
    forall j | 0 <= j < |s| && s[j].min <= d < s[j].max
      ensures j == k
    {
      if k < j {
        Ordered(s, k, j);
      }
    }
  }

  /** A larger sample never lands in an earlier bucket. */
  lemma {:induction false} SlotMono(s: seq<Entry>, d1: int, d2: int)
    requires d1 <= d2
    ensures Slot(s, d1) <= Slot(s, d2)
  {
    if s != [] && s[0].max <= d1 {
      SlotMono(s[1..], d1, d2);
    }
  }

  /** Inside the table's range a sample lands before bucket k exactly when it
      is below bucket k's lower bound, and no later than bucket k exactly when
      it is below bucket k's upper bound. */
  lemma SlotAgainstBucket(s: seq<Entry>, d: int, k: nat)
    requires Contiguous(s) && |s| > 0
    requires s[0].min <= d < s[|s| - 1].max
    requires k < |s|
    ensures Slot(s, d) < k <==> d < s[k].min
    ensures Slot(s, d) <= k <==> d < s[k].max
  {
    Coverage(s, d);
    var j := Slot(s, d);
    if j < k {
      Ordered(s, j, k);
    } else if k < j {
      Ordered(s, k, j);
    }
  }

  /** Every sample below the first bucket's upper bound, zero and negative
      durations included, is counted in the first bucket. */
  lemma LowSamplesInFirstBucket(s: seq<Entry>, d: int)
    requires |s| > 0 && d < s[0].max
    ensures Slot(s, d) == 0
    ensures Added(s, d)[0].n == s[0].n + 1
  {
  }

  lemma {:induction false} SumZero(s: seq<Entry>)
    requires forall k :: 0 <= k < |s| ==> s[k].n == 0
    ensures Sum(s) == 0
  {
    if s != [] {
      SumZero(s[..|s| - 1]);
    }
  }

  lemma {:induction false} PrefixMono(s: seq<Entry>, i: nat, j: nat)
    requires i <= j <= |s|
    ensures Sum(s[..i]) <= Sum(s[..j])
  {
    if i < j {
      PrefixMono(s, i, j - 1);
      assert s[..j][..j - 1] == s[..j - 1];
    }
  }

  /** Replacing one bucket changes the sum by the difference of the counters. */
  lemma {:induction false} SumUpdate(s: seq<Entry>, k: nat, e: Entry)
    requires k < |s|
    ensures Sum(s[k := e]) == Sum(s) - s[k].n + e.n
  {
    var last := |s| - 1;
    if k == last {
      assert s[k := e][..last] == s[..last];
    } else {
      assert s[k := e][..last] == s[..last][k := e];
      SumUpdate(s[..last], k, e);
    }
  }

  /** Recording d keeps every bound, raises the counter of Slot(s, d) by one
      and leaves every other counter as it was. */
  lemma AddedFrame(s: seq<Entry>, d: int)
    ensures SameBounds(Added(s, d), s)
    ensures forall j :: 0 <= j < |s| && j != Slot(s, d) ==> Added(s, d)[j] == s[j]
    ensures Slot(s, d) < |s| ==> Added(s, d)[Slot(s, d)].n == s[Slot(s, d)].n + 1
    ensures Slot(s, d) == |s| ==> Added(s, d) == s
  {
  }

  /** Recording d raises the running total before bucket k by one exactly
      when d lands below k. */
  lemma AddedPrefix(s: seq<Entry>, d: int, k: nat)
    requires k <= |s|
    ensures Sum(Added(s, d)[..k]) == Sum(s[..k]) + (if Slot(s, d) < k then 1 else 0)
  {
    var i := Slot(s, d);
    if i < |s| {
      var e := s[i].(n := s[i].n + 1);
      if i < k {
        assert Added(s, d)[..k] == s[..k][i := e];
        SumUpdate(s[..k], i, e);
      } else {
        assert Added(s, d)[..k] == s[..k];
      }
    }
  }

  /** Recording d raises Count by one, or leaves it when d is dropped. */
  lemma AddedSum(s: seq<Entry>, d: int)
    ensures Sum(Added(s, d)) == Sum(s) + (if Slot(s, d) < |s| then 1 else 0)
  {
    AddedPrefix(s, d, |s|);
    assert Added(s, d)[..|s|] == Added(s, d);
    assert s[..|s|] == s;
  }

  /** Recording keeps the constructor's shape. */
  lemma AddedKeepsShape(s: seq<Entry>, d: int)
    requires Shaped(s)
    ensures Shaped(Added(s, d))
  {
  }

  lemma {:induction false} LandedSameBounds(r: seq<Entry>, s: seq<Entry>, ds: seq<int>, k: nat)
    requires SameBounds(r, s)
    ensures Landed(r, ds, k) == Landed(s, ds, k)
  {
    if ds != [] {
      SlotSameBounds(r, s, ds[0]);
      LandedSameBounds(r, s, ds[1..], k);
    }
  }

  /** After a run of samples the bounds are unchanged and the running total
      before bucket k has grown by the number of samples landed below k. */
  lemma {:induction false} AddAllPrefix(s: seq<Entry>, ds: seq<int>, k: nat)
    requires k <= |s|
    ensures SameBounds(AddAll(s, ds), s)
    ensures Sum(AddAll(s, ds)[..k]) == Sum(s[..k]) + Landed(s, ds, k)
    decreases |ds|
  {
    if ds != [] {
      var s1 := Added(s, ds[0]);
      AddedFrame(s, ds[0]);
      AddedPrefix(s, ds[0], k);
      AddAllPrefix(s1, ds[1..], k);
      LandedSameBounds(s1, s, ds[1..], k);
    }
  }

  /** A run of samples raises Count by the number of them below the last
      bucket's upper bound; the others are dropped. */
  lemma AddAllSum(s: seq<Entry>, ds: seq<int>)
    ensures SameBounds(AddAll(s, ds), s)
    ensures Sum(AddAll(s, ds)) == Sum(s) + Landed(s, ds, |s|)
  {
    AddAllPrefix(s, ds, |s|);
    assert AddAll(s, ds)[..|s|] == AddAll(s, ds);
    assert s[..|s|] == s;
  }

  /** Recording one more sample after a run is recording the longer run. */
  lemma {:induction false} AddAllSnoc(s: seq<Entry>, ds: seq<int>, d: int)
    ensures AddAll(s, ds + [d]) == Added(AddAll(s, ds), d)
    decreases |ds|
  {
    if ds == [] {
      assert [] + [d] == [d];
      assert [d][1..] == [];
    } else {
      assert (ds + [d])[0] == ds[0];
      assert (ds + [d])[1..] == ds[1..] + [d];
      AddAllSnoc(Added(s, ds[0]), ds[1..], d);
    }
  }

  /** On a table with the constructor's bounds a sample is dropped exactly
      when it is 10000s or longer, and then nothing changes. */
  lemma DroppedOnShaped(s: seq<Entry>, d: int)
    requires Shaped(s)
    ensures Slot(s, d) == |s| <==> DeltaLimit <= d
    ensures DeltaLimit <= d ==> Added(s, d) == s
  {
    ShapedIsContiguous(s);
    LayoutShape();
    assert s[|s| - 1].max == Layout()[|s| - 1].max;
    DroppedIffBeyondLast(s, d);
  }

  /** DroppedOnShaped for a table that may or may not have New's bounds. */
  lemma DroppedWhenValid(s: seq<Entry>, d: int)
    ensures Shaped(s) ==> (Slot(s, d) == |s| <==> DeltaLimit <= d)
  {
    if Shaped(s) {
      DroppedOnShaped(s, d);
    }
  }

  lemma {:induction false} LandedAll(s: seq<Entry>, ds: seq<int>)
    requires forall i :: 0 <= i < |ds| ==> Slot(s, ds[i]) < |s|
    ensures Landed(s, ds, |s|) == |ds|
  {
    if ds != [] {
      LandedAll(s, ds[1..]);
    }
  }

  /** Inside the table's range, the samples landing before bucket k are those
      below its lower bound, and those landing up to bucket k are those below
      its upper bound. */
  lemma {:induction false} LandedBelow(s: seq<Entry>, ds: seq<int>, k: nat)
    requires Contiguous(s) && |s| > 0 && k < |s|
    requires forall i :: 0 <= i < |ds| ==> s[0].min <= ds[i] < s[|s| - 1].max
    ensures Landed(s, ds, k) == Below(ds, s[k].min)
    ensures Landed(s, ds, k + 1) == Below(ds, s[k].max)
    decreases |ds|
  {
    if ds != [] {
      SlotAgainstBucket(s, ds[0], k);
      LandedBelow(s, ds[1..], k);
    }
  }

  /** A fresh table counts nothing. */
  lemma FreshCount()
    ensures Sum(Layout()) == 0
  {
    LayoutShape();
    SumZero(Layout());
  }

  /** N samples below 10000s recorded into a fresh table give Count() == N. */
  lemma FreshAddsCount(ds: seq<int>)
    requires forall i :: 0 <= i < |ds| ==> ds[i] < DeltaLimit
    ensures Sum(AddAll(Layout(), ds)) == |ds|
  {
    LayoutShape();
    LayoutContiguous();
    forall i | 0 <= i < |ds|
      ensures Slot(Layout(), ds[i]) < |Layout()|
    {
      DroppedIffBeyondLast(Layout(), ds[i]);
    }
    LandedAll(Layout(), ds);
    FreshCount();
    AddAllSum(Layout(), ds);
  }
}
