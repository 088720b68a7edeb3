/** `ORDER BY ... LIMIT n` as a selection: the first `n` elements under a
    total preorder, best first. SQLite leaves the order among ties
    unspecified, so nothing is promised about it beyond what the preorder
    says; this model happens to keep the earlier element first. */
module Ranking {
  import opened Basics

  /** `before(x, y)`: `x` may be listed before `y`. */
  ghost predicate TotalPreorder<T(!new)>(before: (T, T) -> bool) {
    && (forall x, y :: before(x, y) || before(y, x))
    && (forall x, y, z :: before(x, y) && before(y, z) ==> before(x, z))
  }

  /** Position of an element that may be listed before every other. */
  function BestIndex<T(!new)>(xs: seq<T>, before: (T, T) -> bool): (i: nat)
    requires |xs| > 0 && TotalPreorder(before)
    ensures i < |xs|
    ensures forall j :: 0 <= j < |xs| ==> before(xs[i], xs[j])
  {
    if |xs| == 1 then 0
    else
      var k := BestIndex(xs[1..], before) + 1;
      assert forall j :: 1 <= j < |xs| ==> before(xs[k], xs[j]) by {
        forall j | 1 <= j < |xs|
          ensures before(xs[k], xs[j])
        {
          assert xs[1..][j - 1] == xs[j];
        }
      }
      if before(xs[0], xs[k]) then 0 else k
  }

  function RemoveAt<T>(xs: seq<T>, i: nat): (r: seq<T>)
    requires i < |xs|
    ensures |r| == |xs| - 1
    ensures multiset(r) + multiset{xs[i]} == multiset(xs)
  {
    assert xs == xs[..i] + [xs[i]] + xs[i + 1..];
    xs[..i] + xs[i + 1..]
  }

  /** Splits `xs` into the `n` elements an `ORDER BY ... LIMIT n` returns
      and the rest: together they are `xs` as a multiset, the selection is
      in order, and every selected element may be listed before every
      element left out. */
  function SelectFirst<T(!new)>(xs: seq<T>, n: nat, before: (T, T) -> bool): (r: (seq<T>, seq<T>))
    requires TotalPreorder(before)
    ensures |r.0| == Min(n, |xs|)
    ensures multiset(r.0) + multiset(r.1) == multiset(xs)
    ensures forall i, j :: 0 <= i < j < |r.0| ==> before(r.0[i], r.0[j])
    ensures forall i, j :: 0 <= i < |r.0| && 0 <= j < |r.1| ==> before(r.0[i], r.1[j])
    decreases n
  {
    if n == 0 || |xs| == 0 then ([], xs)
    else
      var b := BestIndex(xs, before);
      var rest := RemoveAt(xs, b);
      var (sel, left) := SelectFirst(rest, n - 1, before);
      BestBeforeAll(xs, b, rest, sel, left, before);
      ConsSelected(xs[b], sel, left, before);
      ([xs[b]] + sel, left)
  }

  /** Putting in front an element ordered before all the others keeps the
      selection ordered and still before everything left over. */
  lemma ConsSelected<T>(x: T, sel: seq<T>, left: seq<T>, before: (T, T) -> bool)
    requires forall i :: 0 <= i < |sel| ==> before(x, sel[i])
    requires forall j :: 0 <= j < |left| ==> before(x, left[j])
    requires forall i, j :: 0 <= i < j < |sel| ==> before(sel[i], sel[j])
    requires forall i, j :: 0 <= i < |sel| && 0 <= j < |left| ==> before(sel[i], left[j])
    ensures var r := [x] + sel;
      && multiset(r) == multiset{x} + multiset(sel)
      && (forall i, j :: 0 <= i < j < |r| ==> before(r[i], r[j]))
      && (forall i, j :: 0 <= i < |r| && 0 <= j < |left| ==> before(r[i], left[j]))
  {
    var r := [x] + sel;
    assert r[1..] == sel;
    forall i, j | 0 <= i < j < |r|
      ensures before(r[i], r[j])
    {
      assert r[j] == sel[j - 1];
      if i > 0 {
        assert r[i] == sel[i - 1];
      }
    }
    forall i, j | 0 <= i < |r| && 0 <= j < |left|
      ensures before(r[i], left[j])
    {
      if i > 0 {
        assert r[i] == sel[i - 1];
      }
    }
  }

  lemma BestBeforeAll<T(!new)>(xs: seq<T>, b: nat, rest: seq<T>, sel: seq<T>, left: seq<T>, before: (T, T) -> bool)
    requires b < |xs| && forall j :: 0 <= j < |xs| ==> before(xs[b], xs[j])
    requires multiset(rest) + multiset{xs[b]} == multiset(xs)
    requires multiset(sel) + multiset(left) == multiset(rest)
    ensures forall i :: 0 <= i < |sel| ==> before(xs[b], sel[i])
    ensures forall j :: 0 <= j < |left| ==> before(xs[b], left[j])
  {
    forall i | 0 <= i < |sel|
      ensures before(xs[b], sel[i])
    {
      assert sel[i] in multiset(xs);
      var k :| 0 <= k < |xs| && xs[k] == sel[i];
    }
    forall j | 0 <= j < |left|
      ensures before(xs[b], left[j])
    {
      assert left[j] in multiset(xs);
      var k :| 0 <= k < |xs| && xs[k] == left[j];
    }
  }

  /** Every selected element comes from `xs`. */
  lemma SelectedFrom<T(!new)>(xs: seq<T>, n: nat, before: (T, T) -> bool)
    requires TotalPreorder(before)
    ensures forall i :: 0 <= i < |SelectFirst(xs, n, before).0| ==> SelectFirst(xs, n, before).0[i] in xs
  {
    var (sel, left) := SelectFirst(xs, n, before);
    forall i | 0 <= i < |sel|
      ensures sel[i] in xs
    {
      assert sel[i] in multiset(sel);
      assert sel[i] in multiset(xs);
    }
  }

  /** An element of `xs` is left out only when the limit is reached, and
      then every selected element may be listed before it. */
  lemma LeftOut<T(!new)>(xs: seq<T>, n: nat, before: (T, T) -> bool, x: T)
    requires TotalPreorder(before) && x in xs && x !in SelectFirst(xs, n, before).0
    ensures |SelectFirst(xs, n, before).0| == n
    ensures forall i :: 0 <= i < |SelectFirst(xs, n, before).0| ==> before(SelectFirst(xs, n, before).0[i], x)
  {
    var (sel, left) := SelectFirst(xs, n, before);
    assert x in multiset(xs);
    assert x in multiset(left);
    var j :| 0 <= j < |left| && left[j] == x;
    assert |multiset(sel) + multiset(left)| == |multiset(xs)|;
  }

  /** "Larger key first", the order of `ORDER BY key DESC`. */
  function ByKeyDesc<T>(key: T -> int): (T, T) -> bool {
    (x, y) => key(x) >= key(y)
  }

  lemma ByKeyDescIsPreorder<T(!new)>(key: T -> int)
    ensures TotalPreorder(ByKeyDesc(key))
  {
  }

  /** `ORDER BY key DESC LIMIT n`. The result holds `min(n, |xs|)` elements of
      `xs` with non-increasing keys; an element is left out only when the
      limit is reached, and then no element returned has a smaller key. */
  function TopByKey<T(!new)>(xs: seq<T>, key: T -> int, n: nat): (r: seq<T>)
    ensures |r| == Min(n, |xs|)
    ensures multiset(r) <= multiset(xs) && forall i :: 0 <= i < |r| ==> r[i] in xs
    ensures forall i, j :: 0 <= i < j < |r| ==> key(r[i]) >= key(r[j])
    ensures forall x :: x in xs && x !in r ==> |r| == n && forall i :: 0 <= i < |r| ==> key(r[i]) >= key(x)
  {
    ByKeyDescIsPreorder(key);
    var sel := SelectFirst(xs, n, ByKeyDesc(key)).0;
    SelectedFrom(xs, n, ByKeyDesc(key));
    forall x | x in xs && x !in sel
      ensures |sel| == n && forall i :: 0 <= i < |sel| ==> key(sel[i]) >= key(x)
    {
      LeftOut(xs, n, ByKeyDesc(key), x);
    }
    sel
  }

  /** `ORDER BY key DESC` without a limit: a permutation of `xs` with
      non-increasing keys. */
  function SortByKeyDesc<T(!new)>(xs: seq<T>, key: T -> int): (r: seq<T>)
    ensures multiset(r) == multiset(xs)
    ensures forall i, j :: 0 <= i < j < |r| ==> key(r[i]) >= key(r[j])
  {
    ByKeyDescIsPreorder(key);
    var (sel, left) := SelectFirst(xs, |xs|, ByKeyDesc(key));
    assert |multiset(sel) + multiset(left)| == |multiset(xs)|;
    assert multiset(left) == multiset{};
    sel
  }
}
