/** Small shared vocabulary: an optional value, integer min/max, distinctness
    and order-preserving deduplication (what a Python dict's keys and SQL's
    DISTINCT both produce). */
module Basics {

  datatype Option<+T> = None | Some(value: T)

  function Min(a: int, b: int): int { if a <= b then a else b }

  function Max(a: int, b: int): int { if a >= b then a else b }

  predicate Distinct<T(==)>(xs: seq<T>) {
    forall i, j :: 0 <= i < j < |xs| ==> xs[i] != xs[j]
  }

  lemma InitLast<T>(xs: seq<T>)
    requires |xs| > 0
    ensures xs == xs[..|xs| - 1] + [xs[|xs| - 1]]
  {
  }

  /** Replacing the last element commutes with dropping the first. */
  lemma InitLastTail<T>(l: seq<T>, y: T)
    requires |l| >= 2
    ensures (l[..|l| - 1] + [y])[0] == l[0]
    ensures (l[..|l| - 1] + [y])[1..] == l[1..][..|l| - 2] + [y]
  {
  }

  /** Replacing the last element commutes with putting one in front. */
  lemma InitLastCons<T>(h: T, t: seq<T>, y: T)
    requires |t| > 0
    ensures var l := [h] + t; l[..|l| - 1] + [y] == [h] + (t[..|t| - 1] + [y])
  {
  }

  lemma AppendAssoc<T>(x: seq<T>, y: seq<T>, z: seq<T>)
    ensures (x + y) + z == x + (y + z)
  {
  }

  /** Dropping the last element of a distinct sequence keeps it distinct,
      and the dropped element is not among the rest. */
  lemma DistinctInit<T>(xs: seq<T>)
    requires |xs| > 0 && Distinct(xs)
    ensures Distinct(xs[..|xs| - 1]) && xs[|xs| - 1] !in xs[..|xs| - 1]
  {
  }

  /** An element at two positions is counted at least twice. */
  lemma CountAtLeastTwo<T>(s: seq<T>, i: nat, j: nat)
    requires i < j < |s| && s[i] == s[j]
    ensures multiset(s)[s[i]] >= 2
  {
    assert s == s[..j] + s[j..];
    assert s[..j][i] == s[i];
    assert s[j..][0] == s[i];
  }

  /** A sequence without repetitions counts every value at most once. */
  lemma {:induction false} CountAtMostOne<T>(s: seq<T>, x: T)
    requires Distinct(s)
    ensures multiset(s)[x] <= 1
    decreases |s|
  {
    if |s| > 0 {
      var init := s[..|s| - 1];
      DistinctInit(s);
      CountAtMostOne(init, x);
      InitLast(s);
      assert multiset(s) == multiset(init) + multiset{s[|s| - 1]};
    }
  }

  /** Taking elements of a sequence without repetitions, each at most as
      often as it occurs, gives a sequence without repetitions. */
  lemma SubBagTrans<T>(a: seq<T>, b: seq<T>, c: seq<T>)
    requires multiset(a) <= multiset(b) && multiset(b) <= multiset(c)
    ensures multiset(a) <= multiset(c)
  {
  }

  lemma SubMultisetDistinct<T>(r: seq<T>, xs: seq<T>)
    requires Distinct(xs) && multiset(r) <= multiset(xs)
    ensures Distinct(r)
  {
    forall i, j | 0 <= i < j < |r|
      ensures r[i] != r[j]
    {
      CountAtMostOne(xs, r[i]);
      if r[i] == r[j] {
        CountAtLeastTwo(r, i, j);
      }
    }
  }

  /** Index of the first occurrence of `x` in `xs`. */
  function FirstIndex<T(==)>(xs: seq<T>, x: T): (i: nat)
    requires x in xs
    ensures i < |xs| && xs[i] == x
    ensures forall j :: 0 <= j < i ==> xs[j] != x
  {
    if xs[0] == x then 0 else 1 + FirstIndex(xs[1..], x)
  }

  lemma FirstIndexOfPrefix<T>(xs: seq<T>, n: nat, x: T)
    requires n <= |xs| && x in xs[..n]
    ensures FirstIndex(xs, x) == FirstIndex(xs[..n], x)
  {
    var i := FirstIndex(xs[..n], x);
    assert xs[..n][i] == xs[i];
    forall k | 0 <= k < i
      ensures xs[k] != x
    {
      assert xs[..n][k] == xs[k];
    }
  }

  /** Keeps the first occurrence of every element, in order of first
      occurrence. */
  function Dedup<T(==)>(xs: seq<T>): (r: seq<T>)
    ensures Distinct(r)
    ensures forall i :: 0 <= i < |r| ==> r[i] in xs
    ensures forall i :: 0 <= i < |xs| ==> xs[i] in r
    ensures forall i, j :: 0 <= i < j < |r| ==> FirstIndex(xs, r[i]) < FirstIndex(xs, r[j])
  {
    if |xs| == 0 then []
    else
      var init := xs[..|xs| - 1];
      var last := xs[|xs| - 1];
      var r := Dedup(init);
      assert xs == init + [last];
      assert forall i :: 0 <= i < |init| ==> init[i] in r;
      DedupOrderStep(xs, r);
      if last in r then r else r + [last]
  }

  /** De-duplication keeps exactly the elements of the input. */
  lemma DedupSameElements<T>(xs: seq<T>)
    ensures forall k :: k in Dedup(xs) <==> k in xs
  {
    forall k | k in xs
      ensures k in Dedup(xs)
    {
      var i :| 0 <= i < |xs| && xs[i] == k;
    }
  }

  lemma DedupOrderStep<T>(xs: seq<T>, r: seq<T>)
    requires |xs| > 0
    requires forall i :: 0 <= i < |r| ==> r[i] in xs[..|xs| - 1]
    requires forall i :: 0 <= i < |xs| - 1 ==> xs[i] in r
    requires forall i, j :: 0 <= i < j < |r| ==> FirstIndex(xs[..|xs| - 1], r[i]) < FirstIndex(xs[..|xs| - 1], r[j])
    ensures forall i, j :: 0 <= i < j < |r| ==> FirstIndex(xs, r[i]) < FirstIndex(xs, r[j])
    ensures xs[|xs| - 1] !in r ==> forall i :: 0 <= i < |r| ==> FirstIndex(xs, r[i]) < FirstIndex(xs, xs[|xs| - 1])
  {
    var n := |xs| - 1;
    var init := xs[..n];
    forall i | 0 <= i < |r|
      ensures FirstIndex(xs, r[i]) == FirstIndex(init, r[i]) < n
    {
      FirstIndexOfPrefix(xs, n, r[i]);
    }
    if xs[n] !in r {
      forall j | 0 <= j < n
        ensures xs[j] != xs[n]
      {
        assert xs[j] in r;
      }
      assert FirstIndex(xs, xs[n]) == n;
    }
  }

  /** The elements satisfying `p`, in their original order. */
  function Filter<T>(xs: seq<T>, p: T -> bool): (r: seq<T>)
    ensures |r| <= |xs| && multiset(r) <= multiset(xs)
    ensures forall i :: 0 <= i < |r| ==> p(r[i]) && r[i] in xs
    ensures forall i :: 0 <= i < |xs| && p(xs[i]) ==> xs[i] in r
  {
    if |xs| == 0 then []
    else
      assert xs == [xs[0]] + xs[1..];
      (if p(xs[0]) then [xs[0]] else []) + Filter(xs[1..], p)
  }

  /** A slice of a slice is a slice of the whole. */
  lemma SliceOfSlice<T>(t: seq<T>, lo: nat, hi: nat, a: nat, b: nat)
    requires lo <= hi <= |t| && a <= b <= hi - lo
    ensures t[lo..hi][a..b] == t[lo + a..lo + b]
  {
    var u := t[lo..hi][a..b];
    var v := t[lo + a..lo + b];
    assert |u| == |v|;
    forall k | 0 <= k < |u|
      ensures u[k] == v[k]
    {
      assert u[k] == t[lo..hi][a + k] == t[lo + a + k];
    }
  }

  /** Filtering by a predicate every element satisfies keeps the sequence. */
  lemma {:induction false} FilterKeepsAll<T>(xs: seq<T>, p: T -> bool)
    requires forall i :: 0 <= i < |xs| ==> p(xs[i])
    ensures Filter(xs, p) == xs
    decreases |xs|
  {
    if |xs| > 0 {
      FilterKeepsAll(xs[1..], p);
      assert p(xs[0]);
    }
  }

  /** Filtering a sequence with one more element at the end. */
  lemma {:induction false} FilterSnoc<T>(xs: seq<T>, x: T, p: T -> bool)
    ensures Filter(xs + [x], p) == Filter(xs, p) + (if p(x) then [x] else [])
    decreases |xs|
  {
    if |xs| == 0 {
      assert Filter([x], p) == (if p(x) then [x] else []) + Filter([], p);
    } else {
      assert (xs + [x])[1..] == xs[1..] + [x];
      FilterSnoc(xs[1..], x, p);
    }
  }

  /** At most the first `n` elements (SQL's `LIMIT n`). */
  function Take<T>(xs: seq<T>, n: nat): (r: seq<T>)
    ensures |r| == Min(n, |xs|) && r == xs[..|r|]
  {
    xs[..Min(n, |xs|)]
  }
}
