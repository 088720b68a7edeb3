/** The entity relationship graph: which entities become candidate nodes,
    which co-occurrence edges are kept, and which nodes and edges are drawn,
    with each node's colour, size and shape. The drawing library itself is
    not modelled; a drawing is the list of nodes and edges handed to it. */
module Graph {
  import opened Basics
  import opened Corpus
  import opened Aggregate
  import opened Ranking

  /** Key figures kept regardless of the threshold. */
  const VipNames: set<string> := {
    "jeffrey epstein", "ghislaine maxwell", "donald trump",
    "donald j. trump", "bill clinton", "prince andrew",
    "alan dershowitz", "les wexner", "jean-luc brunel",
    "virginia roberts", "virginia giuffre"
  }

  const EpsteinNames: set<string> := {"jeffrey epstein", "epstein", "jeffrey"}

  /** The three controls: minimum shared files, maximum nodes and whether
      organisations are shown. */
  datatype Params = Params(minWeight: int, maxNodes: nat, showOrgs: bool)

  /** The entity labels the top-entity query accepts. */
  function Types(showOrgs: bool): set<string> {
    if showOrgs then {"PERSON", "ORG"} else {"PERSON"}
  }

  // ---------------------------------------------------------------------
  // Node selection

  function AsFact(e: EntityRow): Fact<string> {
    Fact(e.normalized, e.fileId, e.count, e.entityLabel)
  }

  /** Entity rows whose label is one of `types`, keyed by name, with the
      label as the tag. */
  function Facts(es: seq<EntityRow>, types: set<string>): seq<Fact<string>> {
    if |es| == 0 then []
    else (if es[0].entityLabel in types then [AsFact(es[0])] else []) + Facts(es[1..], types)
  }

  /** All entity rows, whatever their label. */
  function AllFacts(es: seq<EntityRow>): (fs: seq<Fact<string>>)
    ensures |fs| == |es| && forall i :: 0 <= i < |es| ==> fs[i] == AsFact(es[i])
  {
    seq(|es|, i requires 0 <= i < |es| => AsFact(es[i]))
  }

  ghost predicate Mentioned(es: seq<EntityRow>, n: string) {
    exists j :: 0 <= j < |es| && es[j].normalized == n
  }

  /** The `GROUP BY normalized HAVING files >= min_weight ORDER BY files
      DESC LIMIT max_nodes` query over the accepted labels: at most
      `maxNodes` groups over the threshold, each the group of its name with
      the label of its first row, most files first; a group over the
      threshold is left out only when the limit is reached by groups with
      at least as many files. No group is listed twice. */
  function TopEntities(es: seq<EntityRow>, p: Params): (r: seq<Group<string>>)
    ensures |r| <= p.maxNodes
    ensures multiset(r) <= multiset(GroupBy(Facts(es, Types(p.showOrgs)))) && Distinct(Keys(r))
    ensures forall i :: 0 <= i < |r| ==> r[i].Files() >= p.minWeight && Refers(r[i], Facts(es, Types(p.showOrgs)))
    ensures forall i, j :: 0 <= i < j < |r| ==> r[i].Files() >= r[j].Files()
    ensures forall g :: g in GroupBy(Facts(es, Types(p.showOrgs))) && g.Files() >= p.minWeight && g !in r ==>
      |r| == p.maxNodes && forall i :: 0 <= i < |r| ==> r[i].Files() >= g.Files()
  {
    RankGroupsAtLeast(Facts(es, Types(p.showOrgs)), p.minWeight, p.maxNodes)
  }

  /** What the graph knows about a node: its label, total mentions and
      number of files. */
  datatype Info = Info(entityLabel: string, total: int, files: nat)

  function InfoOf(g: Group<string>): Info {
    Info(g.tag, g.total, g.Files())
  }

  /** The values the grouping queries report for a name over `facts`. */
  ghost function Reference(facts: seq<Fact<string>>, n: string): Info {
    Info(TagFor(facts, n), TotalFor(facts, n), |FilesFor(facts, n)|)
  }

  datatype Selection = Selection(nodes: set<string>, info: map<string, Info>)

  function TopNames(es: seq<EntityRow>, p: Params): set<string> {
    set g | g in TopEntities(es, p) :: g.key
  }

  /** Key figures outside the top entities that have entity rows. */
  function ForcedNames(es: seq<EntityRow>, p: Params): set<string> {
    var all := GroupBy(AllFacts(es));
    set v | v in VipNames && v !in TopNames(es, p) && v in Keys(all)
  }

  /** `entity_info[n]`: from the top-entity row for a top entity, from the
      grouping of all of the name's rows otherwise. */
  function NodeInfo(es: seq<EntityRow>, p: Params, n: string): Info {
    var top := TopEntities(es, p);
    var all := GroupBy(AllFacts(es));
    if n in Keys(top) then InfoOf(top[FirstIndex(Keys(top), n)])
    else if n in Keys(all) then InfoOf(all[FirstIndex(Keys(all), n)])
    else Info("PERSON", 1, 1)
  }

  lemma TopInfo(es: seq<EntityRow>, p: Params, n: string)
    requires n in TopNames(es, p)
    ensures NodeInfo(es, p, n) == Reference(Facts(es, Types(p.showOrgs)), n)
  {
    var top := TopEntities(es, p);
    TopNamesAreKeys(es, p);
    KeyedInfo(top, Facts(es, Types(p.showOrgs)), n);
  }

  /** The group a name finds among groups that all refer to `facts`
      reports what the grouping queries report for that name. */
  lemma KeyedInfo(gs: seq<Group<string>>, facts: seq<Fact<string>>, n: string)
    requires n in Keys(gs)
    requires forall i :: 0 <= i < |gs| ==> Refers(gs[i], facts)
    ensures InfoOf(gs[FirstIndex(Keys(gs), n)]) == Reference(facts, n)
  {
    var i := FirstIndex(Keys(gs), n);
    assert gs[i].key == n;
    assert Refers(gs[i], facts);
  }

  lemma TopNamesAreKeys(es: seq<EntityRow>, p: Params)
    ensures forall n :: n in Keys(TopEntities(es, p)) <==> n in TopNames(es, p)
  {
    var top := TopEntities(es, p);
    forall n | n in Keys(top)
      ensures n in TopNames(es, p)
    {
      var k := FirstIndex(Keys(top), n);
      assert top[k] in top;
    }
  }

  lemma ForcedInfo(es: seq<EntityRow>, p: Params, n: string)
    requires n in ForcedNames(es, p)
    ensures NodeInfo(es, p, n) == Reference(AllFacts(es), n)
  {
    var top := TopEntities(es, p);
    var all := GroupBy(AllFacts(es));
    assert n !in Keys(top) by { TopNamesAreKeys(es, p); }
    assert NodeInfo(es, p, n) == InfoOf(all[FirstIndex(Keys(all), n)]);
    AllKeyedInfo(es, n);
  }

  lemma AllKeyedInfo(es: seq<EntityRow>, n: string)
    requires n in Keys(GroupBy(AllFacts(es)))
    ensures InfoOf(GroupBy(AllFacts(es))[FirstIndex(Keys(GroupBy(AllFacts(es))), n)]) == Reference(AllFacts(es), n)
  {
    var all := GroupBy(AllFacts(es));
    GroupsRefer(AllFacts(es));
    assert forall i :: 0 <= i < |all| ==> all[i] in all;
    KeyedInfo(all, AllFacts(es), n);
  }

  /** `entity_set` and `entity_info`: the top entities, then every key
      figure not among them that has entity rows of any label, described by
      all of its rows. */
  function SelectNodes(es: seq<EntityRow>, p: Params): (s: Selection)
    ensures s.info.Keys == s.nodes
    ensures forall n :: n in s.nodes <==> n in TopNames(es, p) || (n in VipNames && Mentioned(es, n))
    ensures forall n :: n in TopNames(es, p) ==> s.info[n] == Reference(Facts(es, Types(p.showOrgs)), n)
    ensures forall n :: n in s.nodes && n !in TopNames(es, p) ==> s.info[n] == Reference(AllFacts(es), n)
  {
    var nodes := TopNames(es, p) + ForcedNames(es, p);
    NodeFacts(es, p);
    Selection(nodes, map n | n in nodes :: NodeInfo(es, p, n))
  }

  lemma NodeFacts(es: seq<EntityRow>, p: Params)
    ensures forall n :: n in TopNames(es, p) + ForcedNames(es, p) <==> n in TopNames(es, p) || (n in VipNames && Mentioned(es, n))
    ensures forall n :: n in TopNames(es, p) ==> NodeInfo(es, p, n) == Reference(Facts(es, Types(p.showOrgs)), n)
    ensures forall n :: n in ForcedNames(es, p) ==> NodeInfo(es, p, n) == Reference(AllFacts(es), n)
  {
    forall n
      ensures n in TopNames(es, p) + ForcedNames(es, p) <==> n in TopNames(es, p) || (n in VipNames && Mentioned(es, n))
    {
      MentionedIffKey(es, n);
    }
    forall n | n in TopNames(es, p)
      ensures NodeInfo(es, p, n) == Reference(Facts(es, Types(p.showOrgs)), n)
    {
      TopInfo(es, p, n);
    }
    forall n | n in ForcedNames(es, p)
      ensures NodeInfo(es, p, n) == Reference(AllFacts(es), n)
    {
      ForcedInfo(es, p, n);
    }
  }

  lemma MentionedIffKey(es: seq<EntityRow>, n: string)
    ensures n in Keys(GroupBy(AllFacts(es))) <==> Mentioned(es, n)
  {
    var fs := AllFacts(es);
    if Mentioned(es, n) {
      var j :| 0 <= j < |es| && es[j].normalized == n;
      assert fs[j].key == n;
    }
    if HasKey(fs, n) {
      var j :| 0 <= j < |fs| && fs[j].key == n;
      assert es[j].normalized == n;
    }
  }

  // ---------------------------------------------------------------------
  // Styling

  datatype Shape = Diamond | Star | Dot

  datatype Style = Style(color: string, size: int, shape: Shape)

  /** The label a node is drawn with; a name without information counts as
      a person seen in one file. */
  function LabelOf(info: map<string, Info>, n: string): string {
    if n in info then info[n].entityLabel else "PERSON"
  }

  function FilesOf(info: map<string, Info>, n: string): nat {
    if n in info then info[n].files else 1
  }

  function LabelColor(l: string): string {
    if l == "PERSON" then "#e74c3c" else if l == "ORG" then "#3498db" else "#95a5a6"
  }

  /** `min(8 + 2 * files, 50)`: grows with the number of files and is capped
      at 50. */
  function DotSize(files: nat): (size: int)
    ensures 8 <= size <= 50
    ensures size == 50 || size == 8 + 2 * files
    ensures size < 50 <==> files < 21
  {
    Min(8 + 2 * files, 50)
  }

  /** More files never give a smaller dot. */
  lemma DotSizeMonotone(f: nat, g: nat)
    requires f <= g
    ensures DotSize(f) <= DotSize(g)
  {
  }

  /** Epstein's names first, then the key figures, then everyone else. */
  function StyleOf(info: map<string, Info>, n: string): (s: Style)
    ensures n in EpsteinNames ==> s == Style("#00ff41", 60, Diamond)
    ensures n !in EpsteinNames && n in VipNames ==>
      s.color == "#f1c40f" && s.shape == Star && 25 <= s.size <= 50 && s.size >= DotSize(FilesOf(info, n))
      && (s.size == 25 || s.size == DotSize(FilesOf(info, n)))
    ensures n !in EpsteinNames && n !in VipNames ==>
      s == Style(LabelColor(LabelOf(info, n)), DotSize(FilesOf(info, n)), Dot)
  {
    if n in EpsteinNames then Style("#00ff41", 60, Diamond)
    else if n in VipNames then Style("#f1c40f", Max(25, DotSize(FilesOf(info, n))), Star)
    else Style(LabelColor(LabelOf(info, n)), DotSize(FilesOf(info, n)), Dot)
  }

  // ---------------------------------------------------------------------
  // Edges

  function Key(e: Edge): (string, string) {
    (e.a, e.b)
  }

  /** The keys of an edge list (a dict keyed by `(a, b)` kept as its items
      in insertion order). */
  function EdgeKeys(m: seq<Edge>): (ks: seq<(string, string)>)
    ensures |ks| == |m| && forall i :: 0 <= i < |m| ==> ks[i] == Key(m[i])
  {
    seq(|m|, i requires 0 <= i < |m| => Key(m[i]))
  }

  /** The weight stored under `k`. */
  function Lookup(m: seq<Edge>, k: (string, string)): int
    requires k in EdgeKeys(m)
  {
    m[FirstIndex(EdgeKeys(m), k)].weight
  }

  /** Reference: the weight of the last row with key `k`. */
  function LastWeight(xs: seq<Edge>, k: (string, string)): int {
    if |xs| == 0 then 0
    else if Key(xs[|xs| - 1]) == k then xs[|xs| - 1].weight
    else LastWeight(xs[..|xs| - 1], k)
  }

  /** Reference: the weight of the first row with key `k`. */
  function FirstWeight(xs: seq<Edge>, k: (string, string)): int {
    if |xs| == 0 then 0
    else if Key(xs[0]) == k then xs[0].weight
    else FirstWeight(xs[1..], k)
  }

  /** `all_edges[(a, b)] = w`: an existing key keeps its place and takes the
      new weight; a new key goes at the end. */
  function Put(m: seq<Edge>, e: Edge): seq<Edge> {
    if Key(e) in EdgeKeys(m) then m[FirstIndex(EdgeKeys(m), Key(e)) := e] else m + [e]
  }

  /** `if (a, b) not in all_edges: all_edges[(a, b)] = w`. */
  function PutIfAbsent(m: seq<Edge>, e: Edge): seq<Edge> {
    if Key(e) in EdgeKeys(m) then m else m + [e]
  }

  lemma PutStep(m: seq<Edge>, e: Edge)
    requires Distinct(EdgeKeys(m))
    ensures var r := Put(m, e);
      && Distinct(EdgeKeys(r))
      && (forall k :: k in EdgeKeys(r) <==> k in EdgeKeys(m) || k == Key(e))
      && Lookup(r, Key(e)) == e.weight
      && (forall k :: k in EdgeKeys(m) && k != Key(e) ==> Lookup(r, k) == Lookup(m, k))
  {
    var r := Put(m, e);
    if Key(e) in EdgeKeys(m) {
      var i := FirstIndex(EdgeKeys(m), Key(e));
      assert EdgeKeys(r) == EdgeKeys(m);
    } else {
      assert EdgeKeys(r) == EdgeKeys(m) + [Key(e)];
      forall k | k in EdgeKeys(m)
        ensures FirstIndex(EdgeKeys(r), k) == FirstIndex(EdgeKeys(m), k)
      {
        FirstIndexOfPrefix(EdgeKeys(r), |m|, k);
        assert EdgeKeys(r)[..|m|] == EdgeKeys(m);
      }
      assert FirstIndex(EdgeKeys(r), Key(e)) == |m|;
    }
  }

  lemma PutIfAbsentStep(m: seq<Edge>, e: Edge)
    requires Distinct(EdgeKeys(m))
    ensures var r := PutIfAbsent(m, e);
      && Distinct(EdgeKeys(r))
      && r[..|m|] == m
      && (forall k :: k in EdgeKeys(r) <==> k in EdgeKeys(m) || k == Key(e))
      && (Key(e) !in EdgeKeys(m) ==> Lookup(r, Key(e)) == e.weight)
      && (forall k :: k in EdgeKeys(m) ==> Lookup(r, k) == Lookup(m, k))
  {
    var r := PutIfAbsent(m, e);
    if Key(e) !in EdgeKeys(m) {
      assert EdgeKeys(r) == EdgeKeys(m) + [Key(e)];
      forall k | k in EdgeKeys(m)
        ensures FirstIndex(EdgeKeys(r), k) == FirstIndex(EdgeKeys(m), k)
      {
        FirstIndexOfPrefix(EdgeKeys(r), |m|, k);
        assert EdgeKeys(r)[..|m|] == EdgeKeys(m);
      }
      assert FirstIndex(EdgeKeys(r), Key(e)) == |m|;
    }
  }

  /** `{(a, b): w for a, b, w in edges}`: one entry per key, in order of the
      key's first row, holding the weight of its last row. */
  function PutAll(xs: seq<Edge>): (m: seq<Edge>)
    ensures Distinct(EdgeKeys(m))
    ensures forall k :: k in EdgeKeys(m) <==> k in EdgeKeys(xs)
    ensures forall k :: k in EdgeKeys(m) ==> Lookup(m, k) == LastWeight(xs, k)
  {
    if |xs| == 0 then []
    else
      var init := xs[..|xs| - 1];
      var e := xs[|xs| - 1];
      var m := PutAll(init);
      PutStep(m, e);
      assert EdgeKeys(xs) == EdgeKeys(init) + [Key(e)];
      Put(m, e)
  }

  /** The key-figure edges folded in without overwriting: the entries
      already present stay exactly as they were, in place, and each new key
      takes the weight of its first row. */
  function AddAbsent(m: seq<Edge>, xs: seq<Edge>): (r: seq<Edge>)
    requires Distinct(EdgeKeys(m))
    ensures Distinct(EdgeKeys(r))
    ensures |m| <= |r| && r[..|m|] == m
    ensures forall k :: k in EdgeKeys(r) <==> k in EdgeKeys(m) || k in EdgeKeys(xs)
    ensures forall k :: k in EdgeKeys(m) ==> Lookup(r, k) == Lookup(m, k)
    ensures forall k :: k in EdgeKeys(r) && k !in EdgeKeys(m) ==> Lookup(r, k) == FirstWeight(xs, k)
  {
    if |xs| == 0 then m
    else
      var init := xs[..|xs| - 1];
      var e := xs[|xs| - 1];
      var r := AddAbsent(m, init);
      InitLast(xs);
      AddAbsentStep(m, init, e, r);
      PutIfAbsent(r, e)
  }

  /** What `AddAbsent(m, xs)` promises about its result `r`. */
  ghost predicate AddedAbsent(m: seq<Edge>, xs: seq<Edge>, r: seq<Edge>) {
    && Distinct(EdgeKeys(r))
    && |m| <= |r| && r[..|m|] == m
    && (forall k :: k in EdgeKeys(r) <==> k in EdgeKeys(m) || k in EdgeKeys(xs))
    && (forall k :: k in EdgeKeys(m) ==> Lookup(r, k) == Lookup(m, k))
    && (forall k :: k in EdgeKeys(r) && k !in EdgeKeys(m) ==> Lookup(r, k) == FirstWeight(xs, k))
  }

  lemma AddAbsentStep(m: seq<Edge>, xs: seq<Edge>, e: Edge, r: seq<Edge>)
    requires Distinct(EdgeKeys(m))
    requires AddedAbsent(m, xs, r)
    ensures AddedAbsent(m, xs + [e], PutIfAbsent(r, e))
  {
    PutIfAbsentStep(r, e);
    var ys := xs + [e];
    assert EdgeKeys(ys) == EdgeKeys(xs) + [Key(e)];
    forall k | k in EdgeKeys(ys)
      ensures FirstWeight(ys, k) == if k in EdgeKeys(xs) then FirstWeight(xs, k) else e.weight
    {
      FirstWeightSnoc(xs, e, k);
    }
  }

  lemma {:induction false} FirstWeightSnoc(xs: seq<Edge>, e: Edge, k: (string, string))
    requires k in EdgeKeys(xs + [e])
    ensures FirstWeight(xs + [e], k) == if k in EdgeKeys(xs) then FirstWeight(xs, k) else e.weight
    decreases |xs|
  {
    if |xs| == 0 {
      assert EdgeKeys([e]) == [Key(e)];
    } else {
      var ys := xs + [e];
      assert ys[0] == xs[0];
      if Key(xs[0]) != k {
        assert ys[1..] == xs[1..] + [e];
        KeyInTail(ys, k);
        KeyInTail(xs, k);
        FirstWeightSnoc(xs[1..], e, k);
      }
    }
  }

  /** A key other than the first row's occurs in the rows after it. */
  lemma KeyInTail(xs: seq<Edge>, k: (string, string))
    requires |xs| > 0 && Key(xs[0]) != k
    ensures k in EdgeKeys(xs) <==> k in EdgeKeys(xs[1..])
  {
    if k in EdgeKeys(xs) {
      var i :| 0 <= i < |xs| && EdgeKeys(xs)[i] == k;
      assert EdgeKeys(xs[1..])[i - 1] == k;
    }
    if k in EdgeKeys(xs[1..]) {
      var i :| 0 <= i < |xs| - 1 && EdgeKeys(xs[1..])[i] == k;
      assert EdgeKeys(xs)[i + 1] == k;
    }
  }

  function AtLeast(minWeight: int): Edge -> bool {
    (e: Edge) => e.weight >= minWeight
  }

  /** The threshold query: edges shared by at least `minWeight` files,
      heaviest first. */
  function ThresholdEdges(cooc: seq<Edge>, minWeight: int): (r: seq<Edge>)
    ensures multiset(r) == multiset(Filter(cooc, AtLeast(minWeight)))
    ensures forall i, j :: 0 <= i < j < |r| ==> r[i].weight >= r[j].weight
  {
    SortByKeyDesc(Filter(cooc, AtLeast(minWeight)), (e: Edge) => e.weight)
  }

  predicate VipEdge(e: Edge) {
    e.weight >= 1 && (e.a in VipNames || e.b in VipNames)
  }

  /** The key-figure query: edges with a key figure at either end and at
      least one shared file, heaviest first. */
  function VipEdges(cooc: seq<Edge>): (r: seq<Edge>)
    ensures multiset(r) == multiset(Filter(cooc, VipEdge))
    ensures forall i, j :: 0 <= i < j < |r| ==> r[i].weight >= r[j].weight
  {
    SortByKeyDesc(Filter(cooc, VipEdge), (e: Edge) => e.weight)
  }

  /** `all_edges`: the threshold edges, then the key-figure edges whose key
      is not present yet. Every key occurs once; the threshold entries come
      first and keep the weight the threshold query gave them (its last row
      for a repeated key); a key-figure edge never replaces one of them. */
  function AllEdges(cooc: seq<Edge>, minWeight: int): (r: seq<Edge>)
    ensures Distinct(EdgeKeys(r))
    ensures forall k :: k in EdgeKeys(r) <==> k in EdgeKeys(ThresholdEdges(cooc, minWeight)) || k in EdgeKeys(VipEdges(cooc))
    ensures var th := ThresholdEdges(cooc, minWeight);
      forall k :: k in EdgeKeys(th) ==> Lookup(r, k) == LastWeight(th, k)
    ensures var th := ThresholdEdges(cooc, minWeight);
      forall k :: k in EdgeKeys(r) && k !in EdgeKeys(th) ==> Lookup(r, k) == FirstWeight(VipEdges(cooc), k)
    ensures |PutAll(ThresholdEdges(cooc, minWeight))| <= |r|
    ensures r[..|PutAll(ThresholdEdges(cooc, minWeight))|] == PutAll(ThresholdEdges(cooc, minWeight))
  {
    AddAbsent(PutAll(ThresholdEdges(cooc, minWeight)), VipEdges(cooc))
  }

  /** When every pair occurs in one row only of the co-occurrence table,
      every edge over the threshold is kept with its own weight. */
  lemma ThresholdWeightsKept(cooc: seq<Edge>, minWeight: int, e: Edge)
    requires Distinct(EdgeKeys(cooc))
    requires e in cooc && e.weight >= minWeight
    ensures Key(e) in EdgeKeys(AllEdges(cooc, minWeight))
    ensures Lookup(AllEdges(cooc, minWeight), Key(e)) == e.weight
  {
    var hits := Filter(cooc, AtLeast(minWeight));
    var th := ThresholdEdges(cooc, minWeight);
    var i :| 0 <= i < |cooc| && cooc[i] == e;
    assert e in hits;
    assert e in multiset(th);
    var j :| 0 <= j < |th| && th[j] == e;
    forall x | x in th && Key(x) == Key(e)
      ensures x.weight == e.weight
    {
      SameKeySameRow(cooc, hits, th, x, i);
    }
    LastWeightUniform(th, Key(e), e.weight, j);
  }

  /** With one row per pair, a row of a sorted selection of the table is
      the table's only row with its pair. */
  lemma SameKeySameRow(cooc: seq<Edge>, hits: seq<Edge>, th: seq<Edge>, x: Edge, i: nat)
    requires Distinct(EdgeKeys(cooc)) && i < |cooc|
    requires forall h :: 0 <= h < |hits| ==> hits[h] in cooc
    requires multiset(th) == multiset(hits)
    requires x in th && Key(x) == Key(cooc[i])
    ensures x == cooc[i]
  {
    assert x in multiset(hits);
    var h :| 0 <= h < |hits| && hits[h] == x;
    var k :| 0 <= k < |cooc| && cooc[k] == x;
    assert EdgeKeys(cooc)[k] == EdgeKeys(cooc)[i];
  }

  lemma {:induction false} LastWeightUniform(xs: seq<Edge>, k: (string, string), w: int, j: nat)
    requires j < |xs| && Key(xs[j]) == k
    requires forall x :: x in xs && Key(x) == k ==> x.weight == w
    ensures LastWeight(xs, k) == w
    decreases |xs|
  {
    var n := |xs| - 1;
    if Key(xs[n]) != k {
      var init := xs[..n];
      assert init[j] == xs[j];
      assert forall x :: x in init ==> x in xs;
      LastWeightUniform(init, k, w, j);
    }
  }

  // ---------------------------------------------------------------------
  // Emission

  datatype Node = Node(name: string, style: Style)

  /** What is handed to the drawing library, with the caption's edge
      counter. */
  datatype Drawing = Drawing(nodes: seq<Node>, edges: seq<Edge>, edgeCount: nat)

  function Names(ns: seq<Node>): (r: seq<string>)
    ensures |r| == |ns| && forall i :: 0 <= i < |ns| ==> r[i] == ns[i].name
  {
    seq(|ns|, i requires 0 <= i < |ns| => ns[i].name)
  }

  /** Organisations are skipped when they are hidden. */
  predicate Hidden(s: Selection, showOrgs: bool, n: string) {
    !showOrgs && LabelOf(s.info, n) == "ORG"
  }

  predicate Shown(s: Selection, showOrgs: bool, n: string) {
    n in s.nodes && !Hidden(s, showOrgs, n)
  }

  function BothShown(s: Selection, showOrgs: bool): Edge -> bool {
    (e: Edge) => Shown(s, showOrgs, e.a) && Shown(s, showOrgs, e.b)
  }

  /** An edge is walked only when both ends are selected. */
  predicate Walked(s: Selection, e: Edge) {
    e.a in s.nodes && e.b in s.nodes
  }

  /** `n` is an end of a walked edge of `es`. */
  ghost predicate Touched(s: Selection, es: seq<Edge>, n: string) {
    exists i :: 0 <= i < |es| && Walked(s, es[i]) && (es[i].a == n || es[i].b == n)
  }

  /** A node is added the first time it is met, unless it is hidden. */
  function Visit(d: Drawing, s: Selection, showOrgs: bool, n: string): Drawing {
    if n in Names(d.nodes) || Hidden(s, showOrgs, n) then d
    else d.(nodes := d.nodes + [Node(n, StyleOf(s.info, n))])
  }

  /** One item of `all_edges`: skip it unless both ends are selected, add
      the ends, draw the edge when both ends are now drawn. */
  function Step(d: Drawing, s: Selection, showOrgs: bool, e: Edge): Drawing {
    if !Walked(s, e) then d
    else
      var d2 := Visit(Visit(d, s, showOrgs, e.a), s, showOrgs, e.b);
      if e.a in Names(d2.nodes) && e.b in Names(d2.nodes)
      then d2.(edges := d2.edges + [e], edgeCount := d2.edgeCount + 1)
      else d2
  }

  /** The drawing after walking `es`: every node once, exactly the shown
      ends of walked edges, each with its style; exactly the edges with both
      ends shown, in order, and the counter equal to their number. */
  ghost predicate Drawn(d: Drawing, s: Selection, showOrgs: bool, es: seq<Edge>) {
    && Distinct(Names(d.nodes))
    && (forall n :: n in Names(d.nodes) <==> Shown(s, showOrgs, n) && Touched(s, es, n))
    && (forall i :: 0 <= i < |d.nodes| ==> d.nodes[i].style == StyleOf(s.info, d.nodes[i].name))
    && d.edges == Filter(es, BothShown(s, showOrgs))
    && d.edgeCount == |d.edges|
  }

  lemma VisitStep(d: Drawing, s: Selection, showOrgs: bool, n: string)
    requires Distinct(Names(d.nodes))
    requires forall i :: 0 <= i < |d.nodes| ==> d.nodes[i].style == StyleOf(s.info, d.nodes[i].name)
    ensures var r := Visit(d, s, showOrgs, n);
      && Distinct(Names(r.nodes))
      && (forall m :: m in Names(r.nodes) <==> m in Names(d.nodes) || (m == n && !Hidden(s, showOrgs, n)))
      && (forall i :: 0 <= i < |r.nodes| ==> r.nodes[i].style == StyleOf(s.info, r.nodes[i].name))
      && r.edges == d.edges && r.edgeCount == d.edgeCount
  {
    var r := Visit(d, s, showOrgs, n);
    if r != d {
      assert Names(r.nodes) == Names(d.nodes) + [n];
    }
  }

  lemma TouchedSnoc(s: Selection, es: seq<Edge>, e: Edge, n: string)
    ensures Touched(s, es + [e], n) <==> Touched(s, es, n) || (Walked(s, e) && (e.a == n || e.b == n))
  {
    var xs := es + [e];
    if Touched(s, es, n) {
      var i :| 0 <= i < |es| && Walked(s, es[i]) && (es[i].a == n || es[i].b == n);
      assert xs[i] == es[i];
    }
    if Walked(s, e) && (e.a == n || e.b == n) {
      assert xs[|es|] == e;
    }
    if Touched(s, xs, n) {
      var i :| 0 <= i < |xs| && Walked(s, xs[i]) && (xs[i].a == n || xs[i].b == n);
      if i < |es| {
        assert xs[i] == es[i];
      }
    }
  }

  lemma StepDrawn(d: Drawing, s: Selection, showOrgs: bool, es: seq<Edge>, e: Edge)
    requires Drawn(d, s, showOrgs, es)
    ensures Drawn(Step(d, s, showOrgs, e), s, showOrgs, es + [e])
  {
    StepNodes(d, s, showOrgs, es, e);
    StepEdges(d, s, showOrgs, es, e);
  }

  lemma StepNodes(d: Drawing, s: Selection, showOrgs: bool, es: seq<Edge>, e: Edge)
    requires Drawn(d, s, showOrgs, es)
    ensures var r := Step(d, s, showOrgs, e);
      && Distinct(Names(r.nodes))
      && (forall n :: n in Names(r.nodes) <==> Shown(s, showOrgs, n) && Touched(s, es + [e], n))
      && (forall i :: 0 <= i < |r.nodes| ==> r.nodes[i].style == StyleOf(s.info, r.nodes[i].name))
  {
    forall n
      ensures Touched(s, es + [e], n) <==> Touched(s, es, n) || (Walked(s, e) && (e.a == n || e.b == n))
    {
      TouchedSnoc(s, es, e, n);
    }
    if Walked(s, e) {
      var d1 := Visit(d, s, showOrgs, e.a);
      VisitStep(d, s, showOrgs, e.a);
      VisitStep(d1, s, showOrgs, e.b);
    }
  }

  lemma StepEdges(d: Drawing, s: Selection, showOrgs: bool, es: seq<Edge>, e: Edge)
    requires Drawn(d, s, showOrgs, es)
    ensures var r := Step(d, s, showOrgs, e);
      r.edges == Filter(es + [e], BothShown(s, showOrgs)) && r.edgeCount == |r.edges|
  {
    FilterSnoc(es, e, BothShown(s, showOrgs));
    if Walked(s, e) {
      var d1 := Visit(d, s, showOrgs, e.a);
      VisitStep(d, s, showOrgs, e.a);
      VisitStep(d1, s, showOrgs, e.b);
    }
  }

  /** The drawing loop over `all_edges`. */
  function Emit(es: seq<Edge>, s: Selection, showOrgs: bool): (d: Drawing)
    ensures Drawn(d, s, showOrgs, es)
  {
    if |es| == 0 then Drawing([], [], 0)
    else
      var init := es[..|es| - 1];
      var e := es[|es| - 1];
      InitLast(es);
      var d := Emit(init, s, showOrgs);
      StepDrawn(d, s, showOrgs, init, e);
      Step(d, s, showOrgs, e)
  }

  /** The drawing of a selection and an edge list: every node once, exactly
      the shown ends of walked edges; exactly the edges with both ends shown,
      in order, with both ends drawn and selected; no organisation while
      organisations are hidden; the counter equals the number of edges. */
  function Draw(s: Selection, all: seq<Edge>, showOrgs: bool): (d: Drawing)
    ensures Distinct(Names(d.nodes))
    ensures forall n :: n in Names(d.nodes) <==> Shown(s, showOrgs, n) && Touched(s, all, n)
    ensures forall i :: 0 <= i < |d.nodes| ==> d.nodes[i].style == StyleOf(s.info, d.nodes[i].name)
    ensures d.edges == Filter(all, BothShown(s, showOrgs))
    ensures d.edgeCount == |d.edges|
    ensures forall i :: 0 <= i < |d.edges| ==>
      && d.edges[i].a in s.nodes && d.edges[i].b in s.nodes
      && d.edges[i].a in Names(d.nodes) && d.edges[i].b in Names(d.nodes)
    ensures !showOrgs ==> forall i :: 0 <= i < |d.nodes| ==> LabelOf(s.info, d.nodes[i].name) != "ORG"
  {
    var d := Emit(all, s, showOrgs);
    DrawnEnds(d, s, showOrgs, all);
    d
  }

  /** The whole graph. Every drawn edge has both ends drawn and selected; a
      selected entity is drawn exactly when it is shown and is an end of a
      kept edge between selected entities, so a key figure without such an
      edge is not drawn; no organisation is drawn while organisations are
      hidden; the counter equals the number of drawn edges. */
  function BuildGraph(es: seq<EntityRow>, cooc: seq<Edge>, p: Params): (d: Drawing)
    ensures var s := SelectNodes(es, p); var all := AllEdges(cooc, p.minWeight);
      && Distinct(Names(d.nodes))
      && (forall n :: n in Names(d.nodes) <==> Shown(s, p.showOrgs, n) && Touched(s, all, n))
      && d.edges == Filter(all, BothShown(s, p.showOrgs))
      && d.edgeCount == |d.edges|
      && (forall i :: 0 <= i < |d.edges| ==>
            && d.edges[i].a in s.nodes && d.edges[i].b in s.nodes
            && d.edges[i].a in Names(d.nodes) && d.edges[i].b in Names(d.nodes))
      && (!p.showOrgs ==> forall i :: 0 <= i < |d.nodes| ==> LabelOf(s.info, d.nodes[i].name) != "ORG")
  {
    Draw(SelectNodes(es, p), AllEdges(cooc, p.minWeight), p.showOrgs)
  }

  /** Consequences of `Drawn`: drawn edges have drawn, selected ends, and
      no drawn node is a hidden organisation. */
  lemma DrawnEnds(d: Drawing, s: Selection, showOrgs: bool, es: seq<Edge>)
    requires Drawn(d, s, showOrgs, es)
    ensures forall i :: 0 <= i < |d.edges| ==>
      && d.edges[i].a in s.nodes && d.edges[i].b in s.nodes
      && d.edges[i].a in Names(d.nodes) && d.edges[i].b in Names(d.nodes)
    ensures !showOrgs ==> forall i :: 0 <= i < |d.nodes| ==> LabelOf(s.info, d.nodes[i].name) != "ORG"
  {
    forall i | 0 <= i < |d.edges|
      ensures d.edges[i].a in Names(d.nodes) && d.edges[i].b in Names(d.nodes)
    {
      var e := d.edges[i];
      var k :| 0 <= k < |es| && es[k] == e;
      assert Walked(s, es[k]);
    }
    forall i | 0 <= i < |d.nodes|
      ensures !showOrgs ==> LabelOf(s.info, d.nodes[i].name) != "ORG"
    {
      var n := d.nodes[i].name;
      assert Names(d.nodes)[i] == n;
      assert n in Names(d.nodes);
      assert Shown(s, showOrgs, n);
    }
  }
}
