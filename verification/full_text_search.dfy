/** The "Full Text Search" tab: a `LIKE '%term%'` query with the raw term,
    capped at 200 rows, read from the cursor ten rows at a time with a
    running hit count, and a snippet under each result, highlighted where
    the term is found. */
module FullTextSearch {
  import opened Basics
  import opened Text
  import opened Matching
  import opened Corpus
  import opened Snippets

  const ResultCap: nat := 200
  const BatchSize: nat := 10

  // ---------------------------------------------------------------------
  // The query

  predicate LikeHit(term: string, d: Doc) {
    Like(d.text, Contains(term))
  }

  /** The query as the dashboard sends it: the raw term inside `%...%`, so a
      `%` or `_` typed by the user acts as a wildcard. */
  function SearchQueryAsWritten(docs: seq<Doc>, term: string): (r: seq<Doc>)
    ensures |r| <= ResultCap
    ensures forall i :: 0 <= i < |r| ==> r[i] in docs && Like(r[i].text, Contains(term))
    ensures multiset(r) <= multiset(docs)
    ensures |r| < ResultCap ==> forall d :: d in docs && Like(d.text, Contains(term)) ==> d in r
  {
    var hits := Filter(docs, d => LikeHit(term, d));
    var r := Take(hits, ResultCap);
    assert forall i :: 0 <= i < |r| ==> r[i] == hits[i];
    assert hits == r + hits[|r|..];
    r
  }

  predicate ContainsHit(term: string, d: Doc) {
    Find(d.text, term) >= 0
  }

  /** The intended query: documents in which the term literally occurs,
      ignoring ASCII case, at most 200 of them in table order. Every result
      has an occurrence, so every snippet is highlighted. */
  function SearchQuery(docs: seq<Doc>, term: string): (r: seq<Doc>)
    ensures |r| <= ResultCap
    ensures forall i :: 0 <= i < |r| ==> r[i] in docs && Occurs(r[i].text, term)
    ensures multiset(r) <= multiset(docs)
    ensures |r| < ResultCap ==> forall d :: d in docs && Occurs(d.text, term) ==> d in r
  {
    var hits := Filter(docs, d => ContainsHit(term, d));
    var r := Take(hits, ResultCap);
    assert forall i :: 0 <= i < |r| ==> r[i] == hits[i];
    assert hits == r + hits[|r|..];
    r
  }

  /** For a term without `%` or `_`, the query as written is the intended
      one. */
  lemma {:induction false} SearchQueryAgrees(docs: seq<Doc>, term: string)
    requires NoWildcards(term)
    ensures SearchQueryAsWritten(docs, term) == SearchQuery(docs, term)
  {
    FilterAgrees(docs, term);
  }

  lemma {:induction false} FilterAgrees(docs: seq<Doc>, term: string)
    requires NoWildcards(term)
    ensures Filter(docs, d => LikeHit(term, d)) == Filter(docs, d => ContainsHit(term, d))
    decreases |docs|
  {
    if |docs| > 0 {
      FilterAgrees(docs[1..], term);
      LikeContainsIffOccurs(docs[0].text, term);
    }
  }

  /** With a `_` in the term the query as written returns a document in
      which the term does not occur, and its snippet falls back to the
      unmarked first 400 characters. */
  lemma SearchAsWrittenMatchesWildcard()
    ensures var d := Doc(FileRec(1, "a.pdf", 1, "a.pdf", 3, true, false), "abc", 3);
      && SearchQueryAsWritten([d], "a_c") == [d]
      && !Occurs(d.text, "a_c")
      && SearchQuery([d], "a_c") == []
      && Highlight(d.text, "a_c") == "abc"
  {
    var d := Doc(FileRec(1, "a.pdf", 1, "a.pdf", 3, true, false), "abc", 3);
    UnderscoreMatchesAnyChar();
    assert Filter([d], x => LikeHit("a_c", x)) == [d];
    UnderscoreIsLiteralForFind();
    assert Filter([d], x => ContainsHit("a_c", x)) == [];
  }

  /** `_` matches any one character under `LIKE`. */
  lemma UnderscoreMatchesAnyChar()
    ensures Like("abc", Contains("a_c"))
  {
    assert Contains("a_c") == "%a_c%";
    assert Like("", "%");
    assert Like("c", "c%");
    assert Like("bc", "_c%");
    assert Like("abc", "a_c%");
  }

  /** `find` takes `_` literally. */
  lemma UnderscoreIsLiteralForFind()
    ensures !Occurs("abc", "a_c")
  {
    assert !MatchAt("abc", "a_c", 0) by {
      assert "abc"[1] == 'b' && "a_c"[1] == '_';
      assert LowerChar('b') != LowerChar('_');
    }
  }

  // ---------------------------------------------------------------------
  // Reading the cursor

  /** `cursor.fetchmany(n)` on a cursor positioned at `pos`. */
  function FetchMany(rows: seq<Doc>, pos: nat, n: nat): (batch: seq<Doc>)
    requires pos <= |rows|
    ensures |batch| == Min(n, |rows| - pos) && batch == rows[pos..pos + |batch|]
  {
    rows[pos..Min(pos + n, |rows|)]
  }

  /** The fetch loop: batches of ten are appended to `results` until the
      cursor is exhausted, and the status line shows the running count after
      each batch. Afterwards `results` is the whole query result, the count
      equals its length, and the counts shown are 10, 20, ... capped by the
      total, strictly increasing and ending at the total. */
  method StreamHits(rows: seq<Doc>) returns (results: seq<Doc>, hitCount: nat, shown: seq<nat>)
    ensures results == rows && hitCount == |results|
    ensures |shown| == (|rows| + BatchSize - 1) / BatchSize
    ensures forall i :: 0 <= i < |shown| ==> shown[i] == Min(BatchSize * (i + 1), |rows|)
    ensures forall i, j :: 0 <= i < j < |shown| ==> shown[i] < shown[j]
    ensures |shown| > 0 ==> shown[|shown| - 1] == hitCount
  {
    results := [];
    hitCount := 0;
    shown := [];
    var pos := 0;
    while true
      invariant pos <= |rows|
      invariant results == rows[..pos] && hitCount == pos
      invariant pos == Min(BatchSize * |shown|, |rows|)
      invariant pos < |rows| ==> pos == BatchSize * |shown|
      invariant forall i :: 0 <= i < |shown| ==> shown[i] == Min(BatchSize * (i + 1), |rows|)
      invariant forall i, j :: 0 <= i < j < |shown| ==> shown[i] < shown[j]
      invariant |shown| > 0 ==> shown[|shown| - 1] == hitCount
      invariant |shown| > 0 ==> BatchSize * (|shown| - 1) < |rows|
      decreases |rows| - pos
    {
      var batch := FetchMany(rows, pos, BatchSize);
      if |batch| == 0 {
        break;
      }
      results := results + batch;
      pos := pos + |batch|;
      hitCount := hitCount + |batch|;
      shown := shown + [hitCount];
    }
    assert rows[..pos] == rows;
    BatchCount(|rows|, |shown|);
  }

  /** `m` batches of ten hold `n` rows exactly when `m` is `n / 10` rounded
      up. */
  lemma BatchCount(n: nat, m: nat)
    requires n == Min(BatchSize * m, n)
    requires m > 0 ==> BatchSize * (m - 1) < n
    ensures m == (n + BatchSize - 1) / BatchSize
  {
    if m > 0 {
      assert BatchSize * (m - 1) + 1 <= n <= BatchSize * m;
      assert BatchSize * m <= n + BatchSize - 1 < BatchSize * (m + 1);
    }
  }

  /** Pressing "Search": nothing happens for an empty term; otherwise the
      `LIKE` query is streamed and each result gets its snippet. At most 200
      hits; a result in which the term is found gets the term marked in its
      snippet, any other result the unmarked first 400 characters of its
      text. For a term without `%` or `_`, the results are the documents in
      which the term occurs, so every snippet is marked. */
  method Search(docs: seq<Doc>, term: string) returns (results: seq<Doc>, hitCount: nat, snippets: seq<string>)
    ensures |term| == 0 ==> results == [] && hitCount == 0
    ensures |term| > 0 ==> results == SearchQueryAsWritten(docs, term)
    ensures |term| > 0 && NoWildcards(term) ==> results == SearchQuery(docs, term)
    ensures hitCount == |results| <= ResultCap
    ensures |snippets| == |results|
    ensures forall i :: 0 <= i < |results| ==> snippets[i] == Highlight(results[i].text, term)
    ensures forall i :: 0 <= i < |results| && Find(results[i].text, term) >= 0 ==> Occurs(snippets[i], term)
    ensures forall i :: 0 <= i < |results| && Find(results[i].text, term) < 0 ==>
      snippets[i] == results[i].text[..Min(HighlightFallback, |results[i].text|)]
    ensures |term| > 0 && NoWildcards(term) ==> forall i :: 0 <= i < |results| ==> Find(results[i].text, term) >= 0
  {
    if |term| == 0 {
      return [], 0, [];
    }
    var shown;
    results, hitCount, shown := StreamHits(SearchQueryAsWritten(docs, term));
    if NoWildcards(term) {
      SearchQueryAgrees(docs, term);
    }
    snippets := HighlightAll(results, term);
  }

  /** One snippet per result: the term marked where it is found, the
      unmarked first 400 characters of the text otherwise. */
  function HighlightAll(rs: seq<Doc>, term: string): (ss: seq<string>)
    ensures |ss| == |rs|
    ensures forall i :: 0 <= i < |rs| ==> ss[i] == Highlight(rs[i].text, term)
    ensures forall i :: 0 <= i < |rs| && Find(rs[i].text, term) >= 0 ==> Occurs(ss[i], term)
    ensures forall i :: 0 <= i < |rs| && Find(rs[i].text, term) < 0 ==>
      ss[i] == rs[i].text[..Min(HighlightFallback, |rs[i].text|)]
  {
    var ss := seq(|rs|, i requires 0 <= i < |rs| => Highlight(rs[i].text, term));
    forall i | 0 <= i < |rs| && Find(rs[i].text, term) >= 0
      ensures Occurs(ss[i], term)
    {
      var idx := Find(rs[i].text, term);
      var w := Window(|rs[i].text|, idx, idx + |term|, HighlightRadius);
      assert MatchAt(ss[i], term, idx - w.0 + 2);
    }
    ss
  }
}
