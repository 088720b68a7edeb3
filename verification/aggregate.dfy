/** `GROUP BY key` with `COUNT(DISTINCT file_id)` and `SUM(amount)`, plus
    the value of a bare column taken from the first row of each group (SQLite
    returns the value from some row of the group; this model fixes the
    first). Groups come out in order of their key's first appearance. */
module Aggregate {
  import opened Basics
  import opened Ranking

  datatype Fact<K> = Fact(key: K, fileId: int, amount: int, tag: string)

  datatype Group<K> = Group(key: K, tag: string, fileIds: set<int>, total: int) {
    /** `COUNT(DISTINCT file_id)`. */
    function Files(): nat {
      |fileIds|
    }
  }

  /** Reference definitions, one group at a time. */
  ghost function FilesFor<K>(facts: seq<Fact<K>>, k: K): set<int> {
    set i | 0 <= i < |facts| && facts[i].key == k :: facts[i].fileId
  }

  function TotalFor<K(==)>(facts: seq<Fact<K>>, k: K): int {
    if |facts| == 0 then 0
    else TotalFor(facts[..|facts| - 1], k) + (if facts[|facts| - 1].key == k then facts[|facts| - 1].amount else 0)
  }

  ghost predicate HasKey<K>(facts: seq<Fact<K>>, k: K) {
    exists i :: 0 <= i < |facts| && facts[i].key == k
  }

  /** The tag of the first fact with key `k`. */
  function TagFor<K(==)>(facts: seq<Fact<K>>, k: K): string {
    if |facts| == 0 then ""
    else if facts[0].key == k then facts[0].tag
    else TagFor(facts[1..], k)
  }

  function Keys<K>(gs: seq<Group<K>>): (ks: seq<K>)
    ensures |ks| == |gs| && forall i :: 0 <= i < |gs| ==> ks[i] == gs[i].key
  {
    seq(|gs|, i requires 0 <= i < |gs| => gs[i].key)
  }

  /** Folding one row into the groups: the group of its key is updated in
      place, or a new group is opened at the end. */
  function AddFact<K(==)>(gs: seq<Group<K>>, f: Fact<K>): (r: seq<Group<K>>)
  {
    if f.key in Keys(gs) then
      var i := FirstIndex(Keys(gs), f.key);
      gs[i := Group(f.key, gs[i].tag, gs[i].fileIds + {f.fileId}, gs[i].total + f.amount)]
    else
      gs + [Group(f.key, f.tag, {f.fileId}, f.amount)]
  }

  /** The groups describe `facts`: one per key that occurs, each with the
      reference values for its key. */
  ghost predicate Describes<K(!new)>(gs: seq<Group<K>>, facts: seq<Fact<K>>) {
    && Distinct(Keys(gs))
    && (forall k :: k in Keys(gs) <==> HasKey(facts, k))
    && (forall i :: 0 <= i < |gs| ==>
      && gs[i].fileIds == FilesFor(facts, gs[i].key)
      && gs[i].total == TotalFor(facts, gs[i].key)
      && gs[i].tag == TagFor(facts, gs[i].key))
  }

  /** `GROUP BY key`: one group per distinct key, in order of first
      appearance; each holds the set of files of its rows, the sum of their
      amounts and the tag of its first row. */
  function GroupBy<K(==,!new)>(facts: seq<Fact<K>>): (r: seq<Group<K>>)
    ensures Describes(r, facts)
  {
    if |facts| == 0 then []
    else
      var init := facts[..|facts| - 1];
      var f := facts[|facts| - 1];
      var gs := GroupBy(init);
      assert facts == init + [f];
      GroupByStep(init, f, gs);
      AddFact(gs, f)
  }

  lemma GroupByStep<K(!new)>(init: seq<Fact<K>>, f: Fact<K>, gs: seq<Group<K>>)
    requires Describes(gs, init)
    ensures Describes(AddFact(gs, f), init + [f])
  {
    var facts := init + [f];
    var r := AddFact(gs, f);
    forall k
      ensures HasKey(facts, k) <==> HasKey(init, k) || f.key == k
      ensures FilesFor(facts, k) == FilesFor(init, k) + (if f.key == k then {f.fileId} else {})
      ensures TotalFor(facts, k) == TotalFor(init, k) + (if f.key == k then f.amount else 0)
      ensures HasKey(init, k) ==> TagFor(facts, k) == TagFor(init, k)
      ensures !HasKey(init, k) && f.key == k ==> TagFor(facts, k) == f.tag
    {
      HasKeySnoc(init, f, k);
      FilesForSnoc(init, f, k);
      assert facts[..|facts| - 1] == init;
      TagForSnoc(init, f, k);
    }
    if f.key in Keys(gs) {
      UpdateKeys(gs, f);
    } else {
      AppendKeys(gs, f);
      AbsentKey(init, f.key);
    }
  }

  /** A key without rows has no files and a zero sum. */
  lemma {:induction false} AbsentKey<K>(facts: seq<Fact<K>>, k: K)
    requires !HasKey(facts, k)
    ensures FilesFor(facts, k) == {} && TotalFor(facts, k) == 0
    decreases |facts|
  {
    if |facts| > 0 {
      var init := facts[..|facts| - 1];
      forall j | 0 <= j < |init|
        ensures init[j].key != k
      {
        assert init[j] == facts[j];
      }
      AbsentKey(init, k);
    }
  }

  lemma UpdateKeys<K>(gs: seq<Group<K>>, f: Fact<K>)
    requires Distinct(Keys(gs)) && f.key in Keys(gs)
    ensures var i := FirstIndex(Keys(gs), f.key); var r := AddFact(gs, f);
      && Keys(r) == Keys(gs)
      && r[i].key == f.key && r[i].tag == gs[i].tag
      && r[i].fileIds == gs[i].fileIds + {f.fileId} && r[i].total == gs[i].total + f.amount
      && forall j :: 0 <= j < |r| && j != i ==> r[j] == gs[j] && gs[j].key != f.key
  {
    var i := FirstIndex(Keys(gs), f.key);
    var r := AddFact(gs, f);
    assert Keys(r) == Keys(gs);
  }

  lemma AppendKeys<K>(gs: seq<Group<K>>, f: Fact<K>)
    requires Distinct(Keys(gs)) && f.key !in Keys(gs)
    ensures var r := AddFact(gs, f);
      && Keys(r) == Keys(gs) + [f.key]
      && r[|gs|] == Group(f.key, f.tag, {f.fileId}, f.amount)
      && forall j :: 0 <= j < |gs| ==> r[j] == gs[j]
  {
    var r := AddFact(gs, f);
    assert Keys(r) == Keys(gs) + [f.key];
  }

  lemma HasKeySnoc<K>(init: seq<Fact<K>>, f: Fact<K>, k: K)
    ensures HasKey(init + [f], k) <==> HasKey(init, k) || f.key == k
  {
    var facts := init + [f];
    if HasKey(init, k) {
      var j :| 0 <= j < |init| && init[j].key == k;
      assert facts[j] == init[j];
    }
    if f.key == k {
      assert facts[|init|] == f;
    }
    if HasKey(facts, k) && f.key != k {
      var j :| 0 <= j < |facts| && facts[j].key == k;
      assert facts[j] == init[j];
    }
  }

  lemma FilesForSnoc<K>(init: seq<Fact<K>>, f: Fact<K>, k: K)
    ensures FilesFor(init + [f], k) == FilesFor(init, k) + (if f.key == k then {f.fileId} else {})
  {
    var facts := init + [f];
    var lhs := FilesFor(facts, k);
    var rhs := FilesFor(init, k) + (if f.key == k then {f.fileId} else {});
    forall x | x in lhs
      ensures x in rhs
    {
      var i :| 0 <= i < |facts| && facts[i].key == k && facts[i].fileId == x;
      if i < |init| {
        assert init[i] == facts[i];
      }
    }
    forall x | x in rhs
      ensures x in lhs
    {
      if x in FilesFor(init, k) {
        var i :| 0 <= i < |init| && init[i].key == k && init[i].fileId == x;
        assert facts[i] == init[i];
      } else {
        assert facts[|init|] == f;
      }
    }
  }

  lemma {:induction false} TagForSnoc<K>(init: seq<Fact<K>>, f: Fact<K>, k: K)
    ensures HasKey(init, k) ==> TagFor(init + [f], k) == TagFor(init, k)
    ensures !HasKey(init, k) && f.key == k ==> TagFor(init + [f], k) == f.tag
    decreases |init|
  {
    if |init| == 0 {
      assert init + [f] == [f];
    } else {
      assert (init + [f])[1..] == init[1..] + [f];
      TagForSnoc(init[1..], f, k);
      if init[0].key != k {
        HasKeyTail(init, k);
      }
    }
  }

  lemma HasKeyTail<K>(facts: seq<Fact<K>>, k: K)
    requires |facts| > 0 && facts[0].key != k
    ensures HasKey(facts, k) <==> HasKey(facts[1..], k)
  {
    if HasKey(facts, k) {
      var j :| 0 <= j < |facts| && facts[j].key == k;
      assert facts[1..][j - 1] == facts[j];
    }
    if HasKey(facts[1..], k) {
      var j :| 0 <= j < |facts| - 1 && facts[1..][j].key == k;
      assert facts[j + 1] == facts[1..][j];
    }
  }

  /** `g` is the group of its key in `facts`: the key occurs and the group
      carries that key's reference values. */
  ghost predicate Refers<K(!new)>(g: Group<K>, facts: seq<Fact<K>>) {
    && HasKey(facts, g.key)
    && g.fileIds == FilesFor(facts, g.key)
    && g.total == TotalFor(facts, g.key)
    && g.tag == TagFor(facts, g.key)
  }

  /** Every group `GroupBy` produces is the group of its key. */
  lemma GroupsRefer<K(!new)>(facts: seq<Fact<K>>)
    ensures forall g :: g in GroupBy(facts) ==> Refers(g, facts)
  {
    var gs := GroupBy(facts);
    forall g | g in gs
      ensures Refers(g, facts)
    {
      var k :| 0 <= k < |gs| && gs[k] == g;
      assert g.key in Keys(gs);
    }
  }

  /** `GROUP BY key ORDER BY COUNT(DISTINCT file_id) DESC LIMIT n`: at most
      `n` groups of `facts`, each carrying its reference values, with
      non-increasing file counts; a group is left out only when `n` groups
      are returned, none of them with fewer files. */
  function RankGroups<K(==,!new)>(facts: seq<Fact<K>>, n: nat): (r: seq<Group<K>>)
    ensures |r| == Min(n, |GroupBy(facts)|)
    ensures multiset(r) <= multiset(GroupBy(facts)) && Distinct(Keys(r))
    ensures forall i :: 0 <= i < |r| ==> Refers(r[i], facts)
    ensures forall i, j :: 0 <= i < j < |r| ==> r[i].Files() >= r[j].Files()
    ensures CutAtLimit(r, GroupBy(facts), n)
  {
    var gs := GroupBy(facts);
    var r := TopByKey(gs, FileCount(), n);
    SubGroupsDistinctKeys(r, gs);
    r
  }

  /** `r` is cut from `gs` at the limit `n`: a group of `gs` is missing from
      `r` only when `r` holds `n` groups, none with fewer files. */
  ghost predicate CutAtLimit<K>(r: seq<Group<K>>, gs: seq<Group<K>>, n: nat) {
    forall g :: g in gs && g !in r ==> |r| == n && forall i :: 0 <= i < |r| ==> r[i].Files() >= g.Files()
  }

  /** A key that occurs among the facts is ranked whenever fewer than `n`
      groups are. */
  lemma RankGroupsListed<K(!new)>(facts: seq<Fact<K>>, n: nat, k: K)
    requires HasKey(facts, k)
    ensures |RankGroups(facts, n)| < n ==> k in Keys(RankGroups(facts, n))
  {
    var gs := GroupBy(facts);
    var r := RankGroups(facts, n);
    assert k in Keys(gs);
    var g := gs[FirstIndex(Keys(gs), k)];
    if |r| < n {
      assert g in r;
      var i :| 0 <= i < |r| && r[i] == g;
      assert Keys(r)[i] == k;
    }
  }

  /** Groups taken from groups with distinct keys, none more often than it
      occurs there, have distinct keys. */
  lemma SubGroupsDistinctKeys<K>(r: seq<Group<K>>, gs: seq<Group<K>>)
    requires Distinct(Keys(gs)) && multiset(r) <= multiset(gs)
    ensures Distinct(Keys(r))
  {
    assert Distinct(gs) by {
      forall a, b | 0 <= a < b < |gs|
        ensures gs[a] != gs[b]
      {
        assert Keys(gs)[a] != Keys(gs)[b];
      }
    }
    SubMultisetDistinct(r, gs);
    forall i, j | 0 <= i < j < |r|
      ensures Keys(r)[i] != Keys(r)[j]
    {
      assert r[i] in multiset(gs) && r[j] in multiset(gs);
      var a :| 0 <= a < |gs| && gs[a] == r[i];
      var b :| 0 <= b < |gs| && gs[b] == r[j];
      assert a != b;
      assert Keys(gs)[a] != Keys(gs)[b];
    }
  }

  /** `HAVING COUNT(DISTINCT file_id) >= least`. */
  function HasAtLeast<K>(least: int): Group<K> -> bool {
    (g: Group<K>) => g.Files() >= least
  }

  function FileCount<K>(): Group<K> -> int {
    (g: Group<K>) => g.Files() as int
  }

  /** `GROUP BY key HAVING COUNT(DISTINCT file_id) >= least ORDER BY ... DESC
      LIMIT n`: at most `n` groups of `facts` with at least `least` files
      each, most files first; a group over the threshold is left out only
      when `n` groups are returned, none with fewer files. */
  function RankGroupsAtLeast<K(==,!new)>(facts: seq<Fact<K>>, least: int, n: nat): (r: seq<Group<K>>)
    ensures |r| <= n
    ensures multiset(r) <= multiset(GroupBy(facts)) && Distinct(Keys(r))
    ensures forall i :: 0 <= i < |r| ==> r[i].Files() >= least && Refers(r[i], facts)
    ensures forall i, j :: 0 <= i < j < |r| ==> r[i].Files() >= r[j].Files()
    ensures forall g :: g in GroupBy(facts) && g.Files() >= least && g !in r ==>
      |r| == n && forall i :: 0 <= i < |r| ==> r[i].Files() >= g.Files()
  {
    RankedAtLeast(facts, least, n);
    TopByKey(Filter(GroupBy(facts), HasAtLeast(least)), FileCount(), n)
  }

  lemma RankedAtLeast<K(!new)>(facts: seq<Fact<K>>, least: int, n: nat)
    ensures var r := TopByKey(Filter(GroupBy(facts), HasAtLeast(least)), FileCount(), n);
      && |r| <= n
      && multiset(r) <= multiset(GroupBy(facts)) && Distinct(Keys(r))
      && (forall i :: 0 <= i < |r| ==> r[i].Files() >= least && Refers(r[i], facts))
      && (forall i, j :: 0 <= i < j < |r| ==> r[i].Files() >= r[j].Files())
      && (forall g :: g in GroupBy(facts) && g.Files() >= least && g !in r ==>
        |r| == n && forall i :: 0 <= i < |r| ==> r[i].Files() >= g.Files())
  {
    var gs := GroupBy(facts);
    var having := Filter(gs, HasAtLeast(least));
    var r := TopByKey(having, FileCount(), n);
    HavingKept(facts, least, having, r);
    HavingLeftOut(facts, least, n, having, r);
    assert multiset(r) <= multiset(gs);
    SubGroupsDistinctKeys(r, gs);
  }

  lemma HavingKept<K(!new)>(facts: seq<Fact<K>>, least: int, having: seq<Group<K>>, r: seq<Group<K>>)
    requires having == Filter(GroupBy(facts), HasAtLeast(least))
    requires forall i :: 0 <= i < |r| ==> r[i] in having
    ensures forall i :: 0 <= i < |r| ==> r[i].Files() >= least && Refers(r[i], facts)
  {
    GroupsRefer(facts);
    forall i | 0 <= i < |r|
      ensures r[i].Files() >= least && Refers(r[i], facts)
    {
      assert r[i] in having;
    }
  }

  lemma HavingLeftOut<K(!new)>(facts: seq<Fact<K>>, least: int, n: nat, having: seq<Group<K>>, r: seq<Group<K>>)
    requires having == Filter(GroupBy(facts), HasAtLeast(least))
    requires forall x :: x in having && x !in r ==> |r| == n && forall i :: 0 <= i < |r| ==> r[i].Files() >= x.Files()
    ensures forall g :: g in GroupBy(facts) && g.Files() >= least && g !in r ==>
      |r| == n && forall i :: 0 <= i < |r| ==> r[i].Files() >= g.Files()
  {
    var gs := GroupBy(facts);
    forall g | g in gs && g.Files() >= least && g !in r
      ensures |r| == n && forall i :: 0 <= i < |r| ==> r[i].Files() >= g.Files()
    {
      var k :| 0 <= k < |gs| && gs[k] == g;
      assert g in having;
    }
  }
}
