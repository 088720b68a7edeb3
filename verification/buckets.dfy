/** The two histograms of the statistics tab: a `CASE WHEN v < b0 THEN ...
    WHEN v < b1 THEN ... ELSE ... END` bucket per row, `COUNT(*)` per bucket,
    buckets listed by their smallest value. */
module Buckets {
  import opened Basics

  predicate Increasing(bounds: seq<int>) {
    forall i, j :: 0 <= i < j < |bounds| ==> bounds[i] < bounds[j]
  }

  /** The index of the first `WHEN v < bound` that holds, or `|bounds|` for
      the `ELSE` branch: every earlier bound is at most `x`, and `x` is below
      the bound that selected it. */
  function Classify(x: int, bounds: seq<int>): (k: nat)
    ensures k <= |bounds|
    ensures forall j :: 0 <= j < k ==> bounds[j] <= x
    ensures k < |bounds| ==> x < bounds[k]
  {
    if |bounds| == 0 then 0
    else if x < bounds[0] then 0
    else 1 + Classify(x, bounds[1..])
  }

  /** A value at or above the first `k` bounds is classified at `k` or
      later. */
  lemma {:induction false} ClassifyAtLeast(x: int, bounds: seq<int>, k: nat)
    requires k <= |bounds| && forall j :: 0 <= j < k ==> bounds[j] <= x
    ensures k <= Classify(x, bounds)
  {
    if k > 0 {
      assert forall j :: 0 <= j < k - 1 ==> bounds[1..][j] == bounds[j + 1];
      ClassifyAtLeast(x, bounds[1..], k - 1);
    }
  }

  /** With increasing bounds the buckets are the half-open ranges between
      consecutive bounds: `x` lands in bucket `k` exactly when it lies in
      the `k`th range. */
  lemma ClassifyIff(x: int, bounds: seq<int>, k: nat)
    requires Increasing(bounds) && k <= |bounds|
    ensures Classify(x, bounds) == k <==> (k == 0 || bounds[k - 1] <= x) && (k == |bounds| || x < bounds[k])
  {
    if (k == 0 || bounds[k - 1] <= x) && (k == |bounds| || x < bounds[k]) {
      forall j | 0 <= j < k
        ensures bounds[j] <= x
      {
        assert j == k - 1 || bounds[j] < bounds[k - 1];
      }
      ClassifyAtLeast(x, bounds, k);
    }
  }

  /** With increasing bounds and distinct labels, a value gets the label of
      bucket `k` exactly when it lies in the `k`th range. */
  lemma LabelIff(x: int, bounds: seq<int>, labels: seq<string>)
    requires Increasing(bounds) && |labels| == |bounds| + 1 && Distinct(labels)
    ensures forall k :: 0 <= k < |labels| ==>
      (labels[Classify(x, bounds)] == labels[k] <==> (k == 0 || bounds[k - 1] <= x) && (k == |bounds| || x < bounds[k]))
  {
    forall k | 0 <= k < |labels|
      ensures labels[Classify(x, bounds)] == labels[k] <==> (k == 0 || bounds[k - 1] <= x) && (k == |bounds| || x < bounds[k])
    {
      ClassifyIff(x, bounds, k);
    }
  }

  /** A larger value never lands in an earlier bucket. */
  lemma ClassifyMonotone(x: int, y: int, bounds: seq<int>)
    requires x <= y
    ensures Classify(x, bounds) <= Classify(y, bounds)
  {
    ClassifyAtLeast(y, bounds, Classify(x, bounds));
  }

  /** Every value of an earlier bucket is smaller than every value of a
      later one, so `ORDER BY MIN(v)` lists the buckets in index order. */
  lemma EarlierBucketSmaller(x: int, y: int, bounds: seq<int>)
    requires Classify(x, bounds) < Classify(y, bounds)
    ensures x < y
  {
    assert bounds[Classify(x, bounds)] <= y;
  }

  // ---------------------------------------------------------------------
  // The two bucketings

  const SizeBounds: seq<int> := [10240, 102400, 1048576, 10485760]
  const SizeLabels: seq<string> := ["< 10KB", "10KB - 100KB", "100KB - 1MB", "1MB - 10MB", "> 10MB"]

  const CharBounds: seq<int> := [100, 1000, 10000, 100000]
  const CharLabels: seq<string> := ["< 100 chars", "100 - 1K chars", "1K - 10K chars", "10K - 100K chars", "> 100K chars"]

  lemma SizeBucketing()
    ensures Increasing(SizeBounds) && Distinct(SizeLabels)
  {
    assert SizeLabels[0][0] == '<' && SizeLabels[4][0] == '>';
    assert |SizeLabels[1]| == 12 && |SizeLabels[2]| == 11 && |SizeLabels[3]| == 10;
  }

  lemma CharBucketing()
    ensures Increasing(CharBounds) && Distinct(CharLabels)
  {
    assert CharLabels[0][0] == '<' && CharLabels[4][0] == '>';
    assert CharLabels[1][1] == '0' && CharLabels[2][1] == 'K' && CharLabels[3][1] == '0';
    assert |CharLabels[1]| == 14 && |CharLabels[3]| == 16;
  }

  /** The "Size Range" of a file: one of the five labels, label `k` exactly
      for the sizes from the `k`th bound (10240, 102400, 1048576, 10485760
      bytes) up to, not including, the next. */
  function SizeRange(size: int): (r: string)
    ensures r in SizeLabels
    ensures forall k :: 0 <= k < 5 ==>
      (r == SizeLabels[k] <==> (k == 0 || SizeBounds[k - 1] <= size) && (k == 4 || size < SizeBounds[k]))
  {
    SizeBucketing();
    LabelIff(size, SizeBounds, SizeLabels);
    SizeLabels[Classify(size, SizeBounds)]
  }

  /** The "Text Length" of a cached text: one of the five labels, label `k`
      exactly for the character counts from the `k`th bound (100, 1000,
      10000, 100000) up to, not including, the next. */
  function TextLength(chars: int): (r: string)
    ensures r in CharLabels
    ensures forall k :: 0 <= k < 5 ==>
      (r == CharLabels[k] <==> (k == 0 || CharBounds[k - 1] <= chars) && (k == 4 || chars < CharBounds[k]))
  {
    CharBucketing();
    LabelIff(chars, CharBounds, CharLabels);
    CharLabels[Classify(chars, CharBounds)]
  }

  // ---------------------------------------------------------------------
  // Histogram

  /** `COUNT(*)` of the rows in bucket `k`. */
  function Count(xs: seq<int>, bounds: seq<int>, k: nat): nat {
    if |xs| == 0 then 0
    else (if Classify(xs[0], bounds) == k then 1 else 0) + Count(xs[1..], bounds, k)
  }

  /** The counts of buckets `k` up to (not including) `m`. */
  function CountFrom(xs: seq<int>, bounds: seq<int>, k: nat, m: nat): nat
    decreases m - k
  {
    if m <= k then 0 else Count(xs, bounds, k) + CountFrom(xs, bounds, k + 1, m)
  }

  datatype Bar = Bar(bucket: nat, name: string, count: nat)

  /** The bars of buckets `k` and later, skipping empty buckets, since
      `GROUP BY` produces no group without rows. */
  function BarsFrom(xs: seq<int>, bounds: seq<int>, labels: seq<string>, k: nat): (r: seq<Bar>)
    requires |labels| == |bounds| + 1
    ensures forall i :: 0 <= i < |r| ==>
      && k <= r[i].bucket < |labels|
      && r[i].name == labels[r[i].bucket]
      && r[i].count == Count(xs, bounds, r[i].bucket) > 0
    ensures forall i, j :: 0 <= i < j < |r| ==> r[i].bucket < r[j].bucket
    decreases |labels| - k
  {
    if |labels| <= k then []
    else
      var rest := BarsFrom(xs, bounds, labels, k + 1);
      var c := Count(xs, bounds, k);
      if c > 0 then
        var r := [Bar(k, labels[k], c)] + rest;
        assert r[1..] == rest;
        r
      else rest
  }

  /** Every non-empty bucket from `k` on gets a bar. */
  lemma {:induction false} BarsFromComplete(xs: seq<int>, bounds: seq<int>, labels: seq<string>, k: nat, b: nat)
    requires |labels| == |bounds| + 1
    requires k <= b < |labels| && Count(xs, bounds, b) > 0
    ensures exists i :: 0 <= i < |BarsFrom(xs, bounds, labels, k)| && BarsFrom(xs, bounds, labels, k)[i].bucket == b
    decreases |labels| - k
  {
    var r := BarsFrom(xs, bounds, labels, k);
    var rest := BarsFrom(xs, bounds, labels, k + 1);
    var c := Count(xs, bounds, k);
    if b == k {
      assert r == [Bar(k, labels[k], c)] + rest;
      assert r[0].bucket == b;
    } else {
      BarsFromComplete(xs, bounds, labels, k + 1, b);
      var i :| 0 <= i < |rest| && rest[i].bucket == b;
      if c > 0 {
        assert r == [Bar(k, labels[k], c)] + rest;
        assert r[i + 1] == rest[i];
      } else {
        assert r == rest;
        assert r[i] == rest[i];
      }
    }
  }

  /** One bar per non-empty bucket, labelled and counted, in order of the
      buckets' smallest values. */
  function Histogram(xs: seq<int>, bounds: seq<int>, labels: seq<string>): (r: seq<Bar>)
    requires |labels| == |bounds| + 1
    ensures forall i :: 0 <= i < |r| ==>
      && r[i].bucket < |labels|
      && r[i].name == labels[r[i].bucket]
      && r[i].count == Count(xs, bounds, r[i].bucket) > 0
    ensures forall i, j :: 0 <= i < j < |r| ==> r[i].bucket < r[j].bucket
    ensures forall i, j, x, y ::
      (0 <= i < j < |r| && x in xs && y in xs && Classify(x, bounds) == r[i].bucket && Classify(y, bounds) == r[j].bucket)
      ==> x < y
    ensures forall b :: 0 <= b < |labels| && Count(xs, bounds, b) > 0 ==> exists i :: 0 <= i < |r| && r[i].bucket == b
  {
    var r := BarsFrom(xs, bounds, labels, 0);
    forall i, j, x, y | 0 <= i < j < |r| && x in xs && y in xs
      && Classify(x, bounds) == r[i].bucket && Classify(y, bounds) == r[j].bucket
      ensures x < y
    {
      EarlierBucketSmaller(x, y, bounds);
    }
    forall b | 0 <= b < |labels| && Count(xs, bounds, b) > 0
      ensures exists i :: 0 <= i < |r| && r[i].bucket == b
    {
      BarsFromComplete(xs, bounds, labels, 0, b);
    }
    r
  }

  function SumBars(bars: seq<Bar>): nat {
    if |bars| == 0 then 0 else bars[0].count + SumBars(bars[1..])
  }

  /** The bars of buckets `k` and later add up to those buckets' counts. */
  lemma {:induction false} BarsFromSum(xs: seq<int>, bounds: seq<int>, labels: seq<string>, k: nat)
    requires |labels| == |bounds| + 1
    ensures SumBars(BarsFrom(xs, bounds, labels, k)) == CountFrom(xs, bounds, k, |labels|)
    decreases |labels| - k
  {
    if k < |labels| {
      BarsFromSum(xs, bounds, labels, k + 1);
      var rest := BarsFrom(xs, bounds, labels, k + 1);
      if Count(xs, bounds, k) > 0 {
        assert ([Bar(k, labels[k], Count(xs, bounds, k))] + rest)[1..] == rest;
      }
    }
  }

  /** Splitting the first row off the counts of buckets `k .. m`. */
  lemma {:induction false} CountFromCons(xs: seq<int>, bounds: seq<int>, k: nat, m: nat)
    requires |xs| > 0
    ensures CountFrom(xs, bounds, k, m)
      == (if k <= Classify(xs[0], bounds) < m then 1 else 0) + CountFrom(xs[1..], bounds, k, m)
    decreases m - k
  {
    if k < m {
      CountFromCons(xs, bounds, k + 1, m);
    }
  }

  /** Every row lands in exactly one bucket, so the buckets' counts add up
      to the number of rows. */
  lemma {:induction false} CountFromAll(xs: seq<int>, bounds: seq<int>)
    ensures CountFrom(xs, bounds, 0, |bounds| + 1) == |xs|
    decreases |xs|
  {
    if |xs| > 0 {
      CountFromCons(xs, bounds, 0, |bounds| + 1);
      CountFromAll(xs[1..], bounds);
    } else {
      CountFromEmpty(bounds, 0, |bounds| + 1);
    }
  }

  lemma {:induction false} CountFromEmpty(bounds: seq<int>, k: nat, m: nat)
    ensures CountFrom([], bounds, k, m) == 0
    decreases m - k
  {
    if k < m {
      CountFromEmpty(bounds, k + 1, m);
    }
  }

  /** The histogram's bars add up to the number of rows: no row is lost or
      counted twice. */
  lemma HistogramTotal(xs: seq<int>, bounds: seq<int>, labels: seq<string>)
    requires |labels| == |bounds| + 1
    ensures SumBars(Histogram(xs, bounds, labels)) == |xs|
  {
    BarsFromSum(xs, bounds, labels, 0);
    CountFromAll(xs, bounds);
  }

  /** "File Size Distribution" over the `file_size` column: one bar per
      non-empty size range, with the range's label and number of rows, in
      ascending order of the ranges; the bars add up to the number of rows. */
  function SizeHistogram(sizes: seq<int>): (r: seq<Bar>)
    ensures SumBars(r) == |sizes|
    ensures forall i :: 0 <= i < |r| ==>
      && r[i].bucket < 5 && r[i].name == SizeLabels[r[i].bucket]
      && r[i].count == Count(sizes, SizeBounds, r[i].bucket) > 0
    ensures forall i, j :: 0 <= i < j < |r| ==> r[i].bucket < r[j].bucket
    ensures forall b :: 0 <= b < 5 && Count(sizes, SizeBounds, b) > 0 ==> exists i :: 0 <= i < |r| && r[i].bucket == b
  {
    HistogramTotal(sizes, SizeBounds, SizeLabels);
    Histogram(sizes, SizeBounds, SizeLabels)
  }

  /** "Text Extraction Stats" over the `char_count` column, bucketed the same
      way by text length. */
  function TextHistogram(chars: seq<int>): (r: seq<Bar>)
    ensures SumBars(r) == |chars|
    ensures forall i :: 0 <= i < |r| ==>
      && r[i].bucket < 5 && r[i].name == CharLabels[r[i].bucket]
      && r[i].count == Count(chars, CharBounds, r[i].bucket) > 0
    ensures forall i, j :: 0 <= i < j < |r| ==> r[i].bucket < r[j].bucket
    ensures forall b :: 0 <= b < 5 && Count(chars, CharBounds, b) > 0 ==> exists i :: 0 <= i < |r| && r[i].bucket == b
  {
    HistogramTotal(chars, CharBounds, CharLabels);
    Histogram(chars, CharBounds, CharLabels)
  }
}
