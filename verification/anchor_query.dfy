/** The "Trump" and "Bannon" tabs: the files whose text mentions an anchor
    term, the keywords and entities that share files with them, the category
    scores, the Bubba-only list and the snippets under each listed file. */
module AnchorQueries {
  import opened Basics
  import opened Text
  import opened Matching
  import opened Corpus
  import opened Aggregate
  import opened Snippets

  const CooccurrenceLimit: nat := 30

  /** `SELECT DISTINCT ... WHERE tc.extracted_text LIKE '%term%'`. */
  function AnchorDocs(docs: seq<Doc>, term: string): (r: seq<Doc>)
    ensures Distinct(r)
    ensures forall i :: 0 <= i < |r| ==> r[i] in docs && Like(r[i].text, Contains(term))
    ensures forall i :: 0 <= i < |docs| && Like(docs[i].text, Contains(term)) ==> docs[i] in r
  {
    var hits := Filter(docs, (d: Doc) => Like(d.text, Contains(term)));
    var r := Dedup(hits);
    assert forall i :: 0 <= i < |r| ==> r[i] in hits;
    r
  }

  function AnchorIds(docs: seq<Doc>, term: string): set<int> {
    Ids(AnchorDocs(docs, term))
  }

  // ---------------------------------------------------------------------
  // Keyword co-occurrence with "Trump"

  /** The anchor's own keywords, excluded by an exact, case-sensitive
      `NOT IN`. */
  const TrumpNames: set<string> := {"Donald Trump", "Trump"}

  function KeywordFact(r: SearchRow): Fact<string> {
    Fact(r.keyword, r.fileId, r.matchCount, "")
  }

  /** The stored search rows in anchor files, other than the anchor's own
      keywords, as facts keyed by keyword. */
  function KeywordFacts(rows: seq<SearchRow>, ids: set<int>): (fs: seq<Fact<string>>)
    ensures forall i :: 0 <= i < |fs| ==> fs[i].fileId in ids && fs[i].key !in TrumpNames
    ensures |fs| <= |rows|
  {
    if |rows| == 0 then []
    else
      var r := rows[0];
      (if r.fileId in ids && r.keyword !in TrumpNames then [KeywordFact(r)] else []) + KeywordFacts(rows[1..], ids)
  }

  /** Every stored row of an anchor file, other than the anchor's own
      keywords, is among the facts. */
  lemma {:induction false} KeywordFactsComplete(rows: seq<SearchRow>, ids: set<int>, j: nat)
    requires j < |rows| && rows[j].fileId in ids && rows[j].keyword !in TrumpNames
    ensures KeywordFact(rows[j]) in KeywordFacts(rows, ids)
    decreases j
  {
    if j > 0 {
      KeywordFactsComplete(rows[1..], ids, j - 1);
      assert rows[1..][j - 1] == rows[j];
    }
  }

  /** "Who Appears in the Same Files as Trump": keywords other than the
      anchor's, grouped with the distinct anchor files they occur in and
      their summed match counts, most shared files first, at most 30; a
      keyword is left out only when 30 keywords with at least as many shared
      files are listed. With no anchor file there is no query and no row. */
  function KeywordCooccurrence(rows: seq<SearchRow>, ids: set<int>): (r: seq<Group<string>>)
    ensures |r| <= CooccurrenceLimit
    ensures multiset(r) <= multiset(GroupBy(KeywordFacts(rows, ids))) && Distinct(Keys(r))
    ensures CutAtLimit(r, GroupBy(KeywordFacts(rows, ids)), CooccurrenceLimit)
    ensures forall i :: 0 <= i < |r| ==> r[i].key !in TrumpNames && r[i].fileIds <= ids
    ensures forall i :: 0 <= i < |r| ==>
      && r[i].fileIds == FilesFor(KeywordFacts(rows, ids), r[i].key)
      && r[i].total == TotalFor(KeywordFacts(rows, ids), r[i].key)
    ensures forall i, j :: 0 <= i < j < |r| ==> r[i].Files() >= r[j].Files()
    ensures ids == {} ==> r == []
  {
    if ids == {} then
      NoAnchorNoKeywordFacts(rows, ids);
      []
    else
      KeywordRanked(rows, ids);
      RankGroups(KeywordFacts(rows, ids), CooccurrenceLimit)
  }

  lemma {:induction false} NoAnchorNoKeywordFacts(rows: seq<SearchRow>, ids: set<int>)
    requires ids == {}
    ensures KeywordFacts(rows, ids) == [] && GroupBy(KeywordFacts(rows, ids)) == []
    decreases |rows|
  {
    if |rows| > 0 {
      NoAnchorNoKeywordFacts(rows[1..], ids);
    }
  }

  lemma KeywordRanked(rows: seq<SearchRow>, ids: set<int>)
    ensures var fs := KeywordFacts(rows, ids); var r := RankGroups(fs, CooccurrenceLimit);
      && |r| <= CooccurrenceLimit
      && multiset(r) <= multiset(GroupBy(fs)) && Distinct(Keys(r))
      && CutAtLimit(r, GroupBy(fs), CooccurrenceLimit)
      && (forall i :: 0 <= i < |r| ==> r[i].key !in TrumpNames && r[i].fileIds <= ids)
      && (forall i :: 0 <= i < |r| ==> r[i].fileIds == FilesFor(fs, r[i].key) && r[i].total == TotalFor(fs, r[i].key))
      && (forall i, j :: 0 <= i < j < |r| ==> r[i].Files() >= r[j].Files())
  {
    KeywordGroupsClean(rows, ids);
  }

  lemma KeywordGroupsClean(rows: seq<SearchRow>, ids: set<int>)
    ensures var r := RankGroups(KeywordFacts(rows, ids), CooccurrenceLimit);
      forall i :: 0 <= i < |r| ==> r[i].key !in TrumpNames && r[i].fileIds <= ids
  {
    var fs := KeywordFacts(rows, ids);
    var r := RankGroups(fs, CooccurrenceLimit);
    forall i | 0 <= i < |r|
      ensures r[i].key !in TrumpNames && r[i].fileIds <= ids
    {
      assert Refers(r[i], fs);
      var j :| 0 <= j < |fs| && fs[j].key == r[i].key;
    }
  }

  /** A keyword stored for an anchor file, other than the anchor's own, is
      listed whenever fewer than 30 keywords are. */
  lemma KeywordListed(rows: seq<SearchRow>, ids: set<int>, j: nat)
    requires j < |rows| && rows[j].fileId in ids && rows[j].keyword !in TrumpNames
    ensures |KeywordCooccurrence(rows, ids)| < CooccurrenceLimit ==>
      rows[j].keyword in Keys(KeywordCooccurrence(rows, ids))
  {
    var fs := KeywordFacts(rows, ids);
    KeywordFactsComplete(rows, ids, j);
    var k :| 0 <= k < |fs| && fs[k] == KeywordFact(rows[j]);
    assert HasKey(fs, rows[j].keyword);
    RankGroupsListed(fs, CooccurrenceLimit, rows[j].keyword);
  }

  /** The `if trump_file_ids` guard changes nothing: with no anchor file no
      stored row qualifies anyway. */
  lemma KeywordGuardRedundant(rows: seq<SearchRow>)
    ensures RankGroups(KeywordFacts(rows, {}), CooccurrenceLimit) == []
  {
    NoAnchorNoKeywordFacts(rows, {});
  }

  // ---------------------------------------------------------------------
  // Entity co-occurrence with "Bannon"

  /** Entity rows in anchor files whose name does not match
      `LIKE '%bannon%'`, keyed by (name, label). */
  function EntityFacts(es: seq<EntityRow>, ids: set<int>): (fs: seq<Fact<(string, string)>>)
    ensures forall i :: 0 <= i < |fs| ==> fs[i].fileId in ids && !Like(fs[i].key.0, Contains("bannon"))
  {
    if |es| == 0 then []
    else
      var e := es[0];
      (if e.fileId in ids && !Like(e.normalized, Contains("bannon"))
       then [Fact((e.normalized, e.entityLabel), e.fileId, e.count, "")] else [])
      + EntityFacts(es[1..], ids)
  }

  /** Every entity row of an anchor file whose name does not contain
      "bannon" is among the facts. */
  lemma {:induction false} EntityFactsComplete(es: seq<EntityRow>, ids: set<int>, j: nat)
    requires j < |es| && es[j].fileId in ids && !Like(es[j].normalized, Contains("bannon"))
    ensures Fact((es[j].normalized, es[j].entityLabel), es[j].fileId, es[j].count, "") in EntityFacts(es, ids)
    decreases j
  {
    if j > 0 {
      EntityFactsComplete(es[1..], ids, j - 1);
      assert es[1..][j - 1] == es[j];
    }
  }

  lemma {:induction false} NoAnchorNoEntityFacts(es: seq<EntityRow>, ids: set<int>)
    requires ids == {}
    ensures EntityFacts(es, ids) == [] && GroupBy(EntityFacts(es, ids)) == []
    decreases |es|
  {
    if |es| > 0 {
      NoAnchorNoEntityFacts(es[1..], ids);
    }
  }

  /** "Who Appears in Bannon Files": entities grouped by name and label, with
      distinct Bannon files and summed counts, most files first, at most 30;
      an entity is left out only when 30 entities with at least as many files
      are listed, and no listed name contains "bannon" in any case. With no
      Bannon file there is no query and no row. */
  function EntityCooccurrence(es: seq<EntityRow>, ids: set<int>): (r: seq<Group<(string, string)>>)
    ensures |r| <= CooccurrenceLimit
    ensures multiset(r) <= multiset(GroupBy(EntityFacts(es, ids))) && Distinct(Keys(r))
    ensures CutAtLimit(r, GroupBy(EntityFacts(es, ids)), CooccurrenceLimit)
    ensures forall i :: 0 <= i < |r| ==> !Occurs(r[i].key.0, "bannon") && r[i].fileIds <= ids
    ensures forall i :: 0 <= i < |r| ==>
      && r[i].fileIds == FilesFor(EntityFacts(es, ids), r[i].key)
      && r[i].total == TotalFor(EntityFacts(es, ids), r[i].key)
    ensures forall i, j :: 0 <= i < j < |r| ==> r[i].Files() >= r[j].Files()
    ensures ids == {} ==> r == []
  {
    if ids == {} then
      NoAnchorNoEntityFacts(es, ids);
      []
    else
      EntityRanked(es, ids);
      RankGroups(EntityFacts(es, ids), CooccurrenceLimit)
  }

  lemma EntityRanked(es: seq<EntityRow>, ids: set<int>)
    ensures var fs := EntityFacts(es, ids); var r := RankGroups(fs, CooccurrenceLimit);
      && |r| <= CooccurrenceLimit
      && multiset(r) <= multiset(GroupBy(fs)) && Distinct(Keys(r))
      && CutAtLimit(r, GroupBy(fs), CooccurrenceLimit)
      && (forall i :: 0 <= i < |r| ==> !Occurs(r[i].key.0, "bannon") && r[i].fileIds <= ids)
      && (forall i :: 0 <= i < |r| ==> r[i].fileIds == FilesFor(fs, r[i].key) && r[i].total == TotalFor(fs, r[i].key))
      && (forall i, j :: 0 <= i < j < |r| ==> r[i].Files() >= r[j].Files())
  {
    var r := RankGroups(EntityFacts(es, ids), CooccurrenceLimit);
    EntityGroupsClean(es, ids, r);
  }

  lemma EntityGroupsClean(es: seq<EntityRow>, ids: set<int>, r: seq<Group<(string, string)>>)
    requires forall i :: 0 <= i < |r| ==> Refers(r[i], EntityFacts(es, ids))
    ensures forall i :: 0 <= i < |r| ==> !Occurs(r[i].key.0, "bannon") && r[i].fileIds <= ids
  {
    var fs := EntityFacts(es, ids);
    forall i | 0 <= i < |r|
      ensures !Occurs(r[i].key.0, "bannon") && r[i].fileIds <= ids
    {
      assert Refers(r[i], fs);
      var j :| 0 <= j < |fs| && fs[j].key == r[i].key;
      LikeContainsIffOccurs(r[i].key.0, "bannon");
    }
  }

  /** An entity found in a Bannon file, under a name without "bannon", is
      listed with its label whenever fewer than 30 entities are. */
  lemma EntityListed(es: seq<EntityRow>, ids: set<int>, j: nat)
    requires j < |es| && es[j].fileId in ids && !Like(es[j].normalized, Contains("bannon"))
    ensures |EntityCooccurrence(es, ids)| < CooccurrenceLimit ==>
      (es[j].normalized, es[j].entityLabel) in Keys(EntityCooccurrence(es, ids))
  {
    var fs := EntityFacts(es, ids);
    var key := (es[j].normalized, es[j].entityLabel);
    EntityFactsComplete(es, ids, j);
    var k :| 0 <= k < |fs| && fs[k] == Fact(key, es[j].fileId, es[j].count, "");
    assert HasKey(fs, key);
    RankGroupsListed(fs, CooccurrenceLimit, key);
  }

  /** The `if bannon_file_ids` guard changes nothing: with no Bannon file no
      entity row qualifies anyway. */
  lemma EntityGuardRedundant(es: seq<EntityRow>)
    ensures RankGroups(EntityFacts(es, {}), CooccurrenceLimit) == []
  {
    NoAnchorNoEntityFacts(es, {});
  }

  // ---------------------------------------------------------------------
  // Category scores

  /** `COUNT(DISTINCT file_id)` over anchor files whose text matches
      `LIKE '%term%'`. */
  function TermCount(docs: seq<Doc>, ids: set<int>, term: string): nat {
    |set d | d in docs && d.file.id in ids && Like(d.text, Contains(term)) :: d.file.id|
  }

  /** A category's score is the largest count over its terms (0 without
      terms): at least every term's count and equal to one of them. */
  function CategoryScore(docs: seq<Doc>, ids: set<int>, terms: seq<string>): (score: nat)
    ensures forall i :: 0 <= i < |terms| ==> TermCount(docs, ids, terms[i]) <= score
    ensures score == 0 || exists i :: 0 <= i < |terms| && score == TermCount(docs, ids, terms[i])
  {
    if |terms| == 0 then 0
    else
      var init := terms[..|terms| - 1];
      var c := TermCount(docs, ids, terms[|terms| - 1]);
      var m := CategoryScore(docs, ids, init);
      assert forall i :: 0 <= i < |init| ==> terms[i] == init[i];
      if m >= c then m else c
  }

  const Categories: seq<(string, seq<string>)> := [
    ("Rape/Sexual Assault Allegations", ["rape", "Katie Johnson", "sexual abuse", "sexual assault"]),
    ("Deutsche Bank Connection", ["Deutsche Bank"]),
    ("Mar-a-Lago / Palm Beach", ["Mar-a-Lago", "Palm Beach"]),
    ("Flight Records", ["flight", "Lolita Express"]),
    ("Legal Proceedings", ["lawsuit", "deposition", "testimony", "indicted"]),
    ("Virginia Roberts/Giuffre", ["Virginia Roberts", "Virginia Giuffre", "Giuffre"]),
    ("Ghislaine Maxwell", ["Ghislaine", "Maxwell"]),
    ("Prince Andrew", ["Prince Andrew", "Duke of York"]),
    ("Bill Clinton", ["Bill Clinton", "Clinton"])
  ]

  /** One score per category, in the order the categories are listed; the
      anchor files are those whose text matches `LIKE '%Trump%'`. */
  function CategoryScores(docs: seq<Doc>): (r: seq<(string, nat)>)
    ensures |r| == |Categories|
    ensures forall i :: 0 <= i < |r| ==>
      r[i].0 == Categories[i].0 && r[i].1 == CategoryScore(docs, AnchorIds(docs, "Trump"), Categories[i].1)
  {
    var ids := AnchorIds(docs, "Trump");
    seq(|Categories|, i requires 0 <= i < |Categories| => (Categories[i].0, CategoryScore(docs, ids, Categories[i].1)))
  }

  // ---------------------------------------------------------------------
  // Bubba-only files

  /** A Bubba file is kept when its id is not a Bannon file's id. */
  function NotBannon(bannon: seq<Doc>): Doc -> bool {
    (d: Doc) => d.file.id !in Ids(bannon)
  }

  /** The Bubba files not already listed under Bannon: a Bubba file is kept
      exactly when its id is not a Bannon file's id, and the kept files stay
      in the Bubba order. With no Bannon file the whole Bubba list is kept. */
  function BubbaOnly(bubba: seq<Doc>, bannon: seq<Doc>): (r: seq<Doc>)
    ensures forall d :: d in r <==> d in bubba && d.file.id !in Ids(bannon)
    ensures r == Filter(bubba, NotBannon(bannon))
    ensures |bannon| == 0 ==> r == bubba
  {
    if |bannon| == 0 then
      BubbaGuardRedundant(bubba);
      bubba
    else
      var r := Filter(bubba, NotBannon(bannon));
      assert forall d :: d in r ==> d in bubba by {
        forall d | d in r ensures d in bubba {
          var i :| 0 <= i < |r| && r[i] == d;
        }
      }
      assert forall d :: d in bubba && d.file.id !in Ids(bannon) ==> d in r by {
        forall d | d in bubba && d.file.id !in Ids(bannon) ensures d in r {
          var i :| 0 <= i < |bubba| && bubba[i] == d;
          assert NotBannon(bannon)(d);
        }
      }
      r
  }

  /** The `if not bannon_files.empty` guard changes nothing: filtering by an
      empty id set keeps every Bubba file in order. */
  lemma BubbaGuardRedundant(bubba: seq<Doc>)
    ensures Filter(bubba, NotBannon([])) == bubba
  {
    assert Ids([]) == {};
    FilterKeepsAll(bubba, NotBannon([]));
  }

  // ---------------------------------------------------------------------
  // Snippets under the listed files

  /** Matching is case-insensitive, so two patterns equal up to case have the
      same occurrences. */
  lemma MatchAtFold(t: string, p: string, q: string, i: nat)
    requires |p| == |q| && forall k :: 0 <= k < |p| ==> LowerChar(p[k]) == LowerChar(q[k])
    ensures MatchAt(t, p, i) <==> MatchAt(t, q, i)
  {
  }

  /** A file listed for an anchor term gets the centred, stripped snippet
      for the lower-case spelling of the term (never the 600-character
      fallback), and the snippet shows the name. */
  lemma ListedSnippetShowsName(docs: seq<Doc>, term: string, name: string, d: Doc)
    requires NoWildcards(term) && |name| == |term|
    requires forall k :: 0 <= k < |term| ==> LowerChar(term[k]) == LowerChar(name[k])
    requires 0 < |name| <= AnchorRadius && NoSpace(name)
    requires d in AnchorDocs(docs, term)
    ensures Find(d.text, name) >= 0
    ensures Occurs(AnchorSnippet(d.text, name), name)
  {
    assert Like(d.text, Contains(term));
    LikeContainsIffOccurs(d.text, term);
    var i: nat :| MatchAt(d.text, term, i);
    MatchAtFold(d.text, term, name, i);
    AnchorSnippetShowsName(d.text, name);
  }

  /** "bannon" is the lower-case spelling of "Bannon", with no whitespace. */
  lemma BannonSpelling()
    ensures NoWildcards("Bannon") && NoSpace("bannon")
    ensures forall k :: 0 <= k < 6 ==> LowerChar("Bannon"[k]) == LowerChar("bannon"[k])
  {
    assert "Bannon" == ['B'] + "annon";
  }

  /** "bubba" is the lower-case spelling of "Bubba", with no whitespace. */
  lemma BubbaSpelling()
    ensures NoWildcards("Bubba") && NoSpace("bubba")
    ensures forall k :: 0 <= k < 5 ==> LowerChar("Bubba"[k]) == LowerChar("bubba"[k])
  {
    assert "Bubba" == ['B'] + "ubba";
  }

  /** Every file listed under "All Files Mentioning Bannon" shows "bannon" in
      its snippet. */
  lemma BannonSnippetsShowName(docs: seq<Doc>, d: Doc)
    requires d in AnchorDocs(docs, "Bannon")
    ensures Find(d.text, "bannon") >= 0
    ensures Occurs(AnchorSnippet(d.text, "bannon"), "bannon")
  {
    BannonSpelling();
    ListedSnippetShowsName(docs, "Bannon", "bannon", d);
  }

  lemma BubbaListedShowsName(docs: seq<Doc>, d: Doc)
    requires d in AnchorDocs(docs, "Bubba")
    ensures Find(d.text, "bubba") >= 0
    ensures Occurs(AnchorSnippet(d.text, "bubba"), "bubba")
  {
    BubbaSpelling();
    ListedSnippetShowsName(docs, "Bubba", "bubba", d);
  }

  /** Every file under "Additional Files Mentioning 'Bubba'" shows "bubba"
      in its snippet. */
  lemma BubbaSnippetsShowName(docs: seq<Doc>, d: Doc)
    requires d in BubbaOnly(AnchorDocs(docs, "Bubba"), AnchorDocs(docs, "Bannon"))
    ensures Find(d.text, "bubba") >= 0
    ensures Occurs(AnchorSnippet(d.text, "bubba"), "bubba")
  {
    BubbaListedShowsName(docs, d);
  }
}
