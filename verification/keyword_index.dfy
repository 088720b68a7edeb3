/** The sidebar's "Search & Add to Database": parse one keyword per line,
    then for each distinct keyword delete its `search_results` rows and insert
    one fresh row per document that mentions it, with the match count and a
    whitespace-collapsed context around the first match. The whole run is
    committed at once, so it is modelled as one step on the table. */
module KeywordIndex {
  import opened Basics
  import opened Text
  import opened Matching
  import opened Corpus

  // ---------------------------------------------------------------------
  // Parsing the text area

  /** The stripped non-empty lines, in order. */
  function KeepLines(ls: seq<string>): seq<string> {
    if |ls| == 0 then []
    else KeepLine(ls[0]) + KeepLines(ls[1..])
  }

  function KeepLine(l: string): seq<string> {
    var k := Strip(l);
    if k != "" then [k] else []
  }

  lemma {:induction false} KeepLinesStripped(ls: seq<string>)
    ensures forall i :: 0 <= i < |KeepLines(ls)| ==> |KeepLines(ls)[i]| > 0 && Stripped(KeepLines(ls)[i])
    decreases |ls|
  {
    if |ls| > 0 {
      KeepLinesStripped(ls[1..]);
    }
  }

  lemma {:induction false} KeepLinesAppend(a: seq<string>, b: seq<string>)
    ensures KeepLines(a + b) == KeepLines(a) + KeepLines(b)
    decreases |a|
  {
    if |a| == 0 {
      assert a + b == b;
    } else {
      assert (a + b)[1..] == a[1..] + b;
      KeepLinesAppend(a[1..], b);
    }
  }

  /** `[k.strip() for k in text.strip().split('\n') if k.strip()]`: exactly
      the stripped non-empty lines of the input; the outer `strip()` changes
      nothing. */
  function ParseKeywords(input: string): (kws: seq<string>)
    ensures kws == KeepLines(SplitLines(input))
    ensures forall i :: 0 <= i < |kws| ==> |kws[i]| > 0 && Stripped(kws[i])
  {
    var e := TrimEnd(input);
    KeepLinesStripped(SplitLines(input));
    KeepLinesTrimEnd(input);
    KeepLinesTrimStart(e);
    KeepLines(SplitLines(Strip(input)))
  }

  lemma {:induction false} KeepLinesTrimStart(s: string)
    ensures KeepLines(SplitLines(TrimStart(s))) == KeepLines(SplitLines(s))
    decreases |s|
  {
    if |s| > 0 && IsSpace(s[0]) {
      KeepLinesTrimStart(s[1..]);
      assert TrimStart(s) == TrimStart(s[1..]);
      var rest := SplitLines(s[1..]);
      var ls := SplitLines(s);
      if s[0] == '\n' {
        assert ls == [""] + rest;
        assert Strip("") == "";
        assert KeepLines(ls) == KeepLine("") + KeepLines(rest);
      } else {
        var l := [s[0]] + rest[0];
        assert ls == [l] + rest[1..];
        assert KeepLines(ls) == KeepLine(l) + KeepLines(rest[1..]);
        StripDropsLeadingSpace(s[0], rest[0]);
        assert KeepLine(l) == KeepLine(rest[0]);
        assert KeepLines(rest) == KeepLine(rest[0]) + KeepLines(rest[1..]);
      }
    }
  }

  lemma {:induction false} KeepLinesTrimEnd(s: string)
    ensures KeepLines(SplitLines(TrimEnd(s))) == KeepLines(SplitLines(s))
    decreases |s|
  {
    if |s| > 0 && IsSpace(s[|s| - 1]) {
      KeepLinesTrimEnd(s[..|s| - 1]);
      KeepLinesTrimEndStep(s);
    }
  }

  lemma KeepLinesTrimEndStep(s: string)
    requires |s| > 0 && IsSpace(s[|s| - 1])
    requires KeepLines(SplitLines(TrimEnd(s[..|s| - 1]))) == KeepLines(SplitLines(s[..|s| - 1]))
    ensures KeepLines(SplitLines(TrimEnd(s))) == KeepLines(SplitLines(s))
  {
    var init := s[..|s| - 1];
    var c := s[|s| - 1];
    assert TrimEnd(s) == TrimEnd(init);
    InitLast(s);
    KeepLinesSpaceSnoc(init, c);
  }

  /** A trailing whitespace character adds no keyword. */
  lemma KeepLinesSpaceSnoc(s: string, c: char)
    requires IsSpace(c)
    ensures KeepLines(SplitLines(s + [c])) == KeepLines(SplitLines(s))
  {
    SplitLinesSnoc(s, c);
    var ls := SplitLines(s);
    if c == '\n' {
      assert SplitLines(s + [c]) == ls + [""];
      KeepLinesSnoc(ls, "");
      assert Strip("") == "";
    } else {
      assert SplitLines(s + [c]) == ls[..|ls| - 1] + [ls[|ls| - 1] + [c]];
      KeepLinesSpaceOnLast(ls, c);
    }
  }

  lemma KeepLinesSpaceOnLast(ls: seq<string>, c: char)
    requires |ls| > 0 && IsSpace(c)
    ensures KeepLines(ls[..|ls| - 1] + [ls[|ls| - 1] + [c]]) == KeepLines(ls)
  {
    var front := ls[..|ls| - 1];
    var last := ls[|ls| - 1];
    InitLast(ls);
    KeepLinesSnoc(front, last + [c]);
    KeepLinesSnoc(front, last);
    StripDropsTrailingSpace(last, c);
  }

  lemma KeepLinesSnoc(ls: seq<string>, l: string)
    ensures KeepLines(ls + [l]) == KeepLines(ls) + KeepLine(l)
  {
    KeepLinesAppend(ls, [l]);
    KeepLinesSingle(l);
  }

  lemma KeepLinesSingle(l: string)
    ensures KeepLines([l]) == KeepLine(l)
  {
    assert [l][1..] == [];
  }

  // ---------------------------------------------------------------------
  // Scanning the corpus for one keyword

  const ContextRadius: nat := 150

  /** Rows the indexer scans: `WHERE tc.char_count > 0`. */
  predicate Scannable(d: Doc) {
    d.charCount > 0
  }

  /** Documents that get a row for `kw`, in corpus order. */
  ghost function Qualifying(docs: seq<Doc>, kw: string): seq<Doc> {
    if |docs| == 0 then []
    else (if Scannable(docs[0]) && Occurs(docs[0].text, kw) then [docs[0]] else []) + Qualifying(docs[1..], kw)
  }

  /** The stored context: the clipped window from 150 characters before the
      first match to 150 after its end, whitespace-collapsed, so it holds the
      same words as that window. */
  function IndexContext(text: string, kw: string): (c: string)
    requires Occurs(text, kw)
    ensures Normalized(c)
    ensures var m := Find(text, kw);
      var w := Window(|text|, m, m + |kw|, ContextRadius);
      Words(c) == Words(text[w.0..w.1])
  {
    var m := Find(text, kw);
    var w := Window(|text|, m, m + |kw|, ContextRadius);
    Collapse(text[w.0..w.1])
  }

  /** `r` is the row the indexer stores for `kw` in document `d`. */
  ghost predicate Describes(r: SearchRow, d: Doc, kw: string) {
    && Scannable(d)
    && Occurs(d.text, kw)
    && r.fileId == d.file.id
    && r.keyword == kw
    && r.matchCount == CountMatches(d.text, kw) >= 1
    && r.context == IndexContext(d.text, kw)
  }

  function RowFor(d: Doc, kw: string): SearchRow
    requires Occurs(d.text, kw)
  {
    SearchRow(d.file.id, kw, CountMatches(d.text, kw), IndexContext(d.text, kw))
  }

  /** The rows inserted for `kw`: one per scannable document with at least
      one match, in corpus order. */
  function Scan(docs: seq<Doc>, kw: string): (rows: seq<SearchRow>)
    ensures forall i :: 0 <= i < |rows| ==> rows[i].keyword == kw
  {
    if |docs| == 0 then []
    else
      var d := docs[0];
      var rest := Scan(docs[1..], kw);
      if Scannable(d) && CountMatches(d.text, kw) > 0 then [RowFor(d, kw)] + rest else rest
  }

  /** Row `i` of the scan describes the `i`-th qualifying document. */
  lemma {:induction false} ScanDescribes(docs: seq<Doc>, kw: string)
    ensures |Scan(docs, kw)| == |Qualifying(docs, kw)|
    ensures forall i :: 0 <= i < |Scan(docs, kw)| ==> Describes(Scan(docs, kw)[i], Qualifying(docs, kw)[i], kw)
    decreases |docs|
  {
    if |docs| > 0 {
      ScanDescribes(docs[1..], kw);
      var d := docs[0];
      var rest := Scan(docs[1..], kw);
      var q := Qualifying(docs[1..], kw);
      var sc := Scan(docs, kw);
      var qs := Qualifying(docs, kw);
      if Scannable(d) && CountMatches(d.text, kw) > 0 {
        assert sc == [RowFor(d, kw)] + rest;
        assert qs == [d] + q;
        forall i | 0 <= i < |sc|
          ensures Describes(sc[i], qs[i], kw)
        {
          if i > 0 {
            assert sc[i] == rest[i - 1] && qs[i] == q[i - 1];
          }
        }
      } else {
        assert sc == rest;
        assert qs == [] + q;
      }
    }
  }

  /** `kw_hits`: the matches of `kw` over all scannable documents. */
  function ScanHits(docs: seq<Doc>, kw: string): nat {
    if |docs| == 0 then 0
    else (if Scannable(docs[0]) then CountMatches(docs[0].text, kw) else 0) + ScanHits(docs[1..], kw)
  }

  function SumCounts(rows: seq<SearchRow>): int {
    if |rows| == 0 then 0 else rows[0].matchCount + SumCounts(rows[1..])
  }

  lemma {:induction false} SumCountsAppend(a: seq<SearchRow>, b: seq<SearchRow>)
    ensures SumCounts(a + b) == SumCounts(a) + SumCounts(b)
    decreases |a|
  {
    if |a| == 0 {
      assert a + b == b;
    } else {
      assert (a + b)[1..] == a[1..] + b;
      SumCountsAppend(a[1..], b);
    }
  }

  /** The reported `kw_hits` equals the sum of the match counts stored for
      `kw`. */
  lemma {:induction false} ScanHitsAreStored(docs: seq<Doc>, kw: string)
    ensures ScanHits(docs, kw) == SumCounts(Scan(docs, kw))
    decreases |docs|
  {
    if |docs| > 0 {
      ScanHitsAreStored(docs[1..], kw);
      var d := docs[0];
      if Scannable(d) && CountMatches(d.text, kw) > 0 {
        assert SumCounts([RowFor(d, kw)] + Scan(docs[1..], kw)) == RowFor(d, kw).matchCount + SumCounts(Scan(docs[1..], kw));
      }
    }
  }

  // ---------------------------------------------------------------------
  // The search_results table

  function RowsOf(t: seq<SearchRow>, kw: string): (r: seq<SearchRow>)
    ensures forall i :: 0 <= i < |r| ==> r[i].keyword == kw
  {
    if |t| == 0 then []
    else (if t[0].keyword == kw then [t[0]] else []) + RowsOf(t[1..], kw)
  }

  /** `DELETE FROM search_results WHERE keyword = ?`. */
  function Without(t: seq<SearchRow>, kw: string): (r: seq<SearchRow>)
    ensures forall i :: 0 <= i < |r| ==> r[i].keyword != kw
  {
    if |t| == 0 then []
    else (if t[0].keyword != kw then [t[0]] else []) + Without(t[1..], kw)
  }

  lemma {:induction false} RowsOfAppend(a: seq<SearchRow>, b: seq<SearchRow>, kw: string)
    ensures RowsOf(a + b, kw) == RowsOf(a, kw) + RowsOf(b, kw)
    decreases |a|
  {
    if |a| == 0 {
      assert a + b == b;
    } else {
      assert (a + b)[1..] == a[1..] + b;
      RowsOfAppend(a[1..], b, kw);
    }
  }

  lemma {:induction false} WithoutAppend(a: seq<SearchRow>, b: seq<SearchRow>, kw: string)
    ensures Without(a + b, kw) == Without(a, kw) + Without(b, kw)
    decreases |a|
  {
    if |a| == 0 {
      assert a + b == b;
    } else {
      assert (a + b)[1..] == a[1..] + b;
      WithoutAppend(a[1..], b, kw);
    }
  }

  lemma RowsOfCons(r: SearchRow, t: seq<SearchRow>, k: string)
    ensures RowsOf([r] + t, k) == (if r.keyword == k then [r] else []) + RowsOf(t, k)
  {
    assert ([r] + t)[1..] == t;
  }

  lemma WithoutCons(r: SearchRow, t: seq<SearchRow>, k: string)
    ensures Without([r] + t, k) == (if r.keyword != k then [r] else []) + Without(t, k)
  {
    assert ([r] + t)[1..] == t;
  }

  /** Deleting one keyword leaves every other keyword's rows as they were. */
  lemma {:induction false} RowsOfWithout(t: seq<SearchRow>, kw: string, k: string)
    ensures RowsOf(Without(t, kw), k) == if k == kw then [] else RowsOf(t, k)
    decreases |t|
  {
    if |t| > 0 {
      RowsOfWithout(t[1..], kw, k);
      var w := Without(t[1..], kw);
      assert RowsOf(t, k) == (if t[0].keyword == k then [t[0]] else []) + RowsOf(t[1..], k);
      if t[0].keyword != kw {
        assert Without(t, kw) == [t[0]] + w;
        RowsOfCons(t[0], w, k);
      } else {
        assert Without(t, kw) == w;
      }
    }
  }

  /** Deleting a keyword no row carries changes nothing. */
  lemma {:induction false} WithoutAbsent(t: seq<SearchRow>, kw: string)
    requires forall i :: 0 <= i < |t| ==> t[i].keyword != kw
    ensures Without(t, kw) == t
    decreases |t|
  {
    if |t| > 0 {
      WithoutAbsent(t[1..], kw);
      assert t == [t[0]] + t[1..];
    }
  }

  /** Filtering rows that all carry one keyword. */
  lemma {:induction false} RowsOfUniform(rows: seq<SearchRow>, kw: string, k: string)
    requires forall i :: 0 <= i < |rows| ==> rows[i].keyword == kw
    ensures RowsOf(rows, k) == if k == kw then rows else []
    ensures Without(rows, k) == if k == kw then [] else rows
    decreases |rows|
  {
    if |rows| > 0 {
      RowsOfUniform(rows[1..], kw, k);
      assert rows == [rows[0]] + rows[1..];
    }
  }

  // ---------------------------------------------------------------------
  // Indexing

  /** Re-index one keyword: delete its rows, then append the fresh scan.
      Afterwards its rows are exactly the scan, whatever was stored before
      (replace, not merge); other keywords' rows are untouched; and the hit
      count returned is the sum of the stored match counts. */
  function IndexKeyword(t: seq<SearchRow>, docs: seq<Doc>, kw: string): (r: (seq<SearchRow>, nat))
    ensures RowsOf(r.0, kw) == Scan(docs, kw)
    ensures forall k :: k != kw ==> RowsOf(r.0, k) == RowsOf(t, k)
    ensures r.1 == SumCounts(RowsOf(r.0, kw))
  {
    var rows := Scan(docs, kw);
    var t' := Without(t, kw) + rows;
    RowsOfAppend(Without(t, kw), rows, kw);
    RowsOfWithout(t, kw, kw);
    RowsOfUniform(rows, kw, kw);
    forall k | k != kw
      ensures RowsOf(t', k) == RowsOf(t, k)
    {
      RowsOfAppend(Without(t, kw), rows, k);
      RowsOfWithout(t, kw, k);
      RowsOfUniform(rows, kw, k);
    }
    ScanHitsAreStored(docs, kw);
    (t', ScanHits(docs, kw))
  }

  /** `total_hits` over a keyword list. */
  function TotalHits(docs: seq<Doc>, kws: seq<string>): nat {
    if |kws| == 0 then 0 else TotalHits(docs, kws[..|kws| - 1]) + ScanHits(docs, kws[|kws| - 1])
  }

  /** Index every keyword in turn. Each listed keyword ends with exactly its
      fresh scan, every other keyword keeps its rows, and the total is the
      sum of the per-keyword hits. */
  function IndexAll(t: seq<SearchRow>, docs: seq<Doc>, kws: seq<string>): (r: (seq<SearchRow>, nat))
    ensures forall k :: k in kws ==> RowsOf(r.0, k) == Scan(docs, k)
    ensures forall k :: k !in kws ==> RowsOf(r.0, k) == RowsOf(t, k)
    ensures r.1 == TotalHits(docs, kws)
  {
    if |kws| == 0 then (t, 0)
    else
      var init := kws[..|kws| - 1];
      var last := kws[|kws| - 1];
      assert kws == init + [last];
      var (t1, h1) := IndexAll(t, docs, init);
      var (t2, h2) := IndexKeyword(t1, docs, last);
      forall k | k in kws
        ensures RowsOf(t2, k) == Scan(docs, k)
      {
        if k != last {
          assert k in init;
        }
      }
      forall k | k !in kws
        ensures RowsOf(t2, k) == RowsOf(t, k)
      {
        assert k !in init && k != last;
      }
      (t2, h1 + h2)
  }

  /** Every row whose keyword is not among those listed, in table order. */
  function WithoutAll(t: seq<SearchRow>, kws: seq<string>): (r: seq<SearchRow>)
    ensures forall i :: 0 <= i < |r| ==> r[i].keyword !in kws
  {
    if |t| == 0 then []
    else (if t[0].keyword !in kws then [t[0]] else []) + WithoutAll(t[1..], kws)
  }

  /** The fresh scans of the listed keywords, one after another. */
  function ScanAll(docs: seq<Doc>, kws: seq<string>): (r: seq<SearchRow>)
    ensures forall i :: 0 <= i < |r| ==> r[i].keyword in kws
  {
    if |kws| == 0 then []
    else
      var init := kws[..|kws| - 1];
      var last := kws[|kws| - 1];
      var a := ScanAll(docs, init);
      var b := Scan(docs, last);
      assert forall i :: 0 <= i < |a| ==> a[i].keyword in kws by {
        assert forall k :: k in init ==> k in kws;
      }
      a + b
  }

  lemma {:induction false} WithoutScanAll(docs: seq<Doc>, kws: seq<string>, k: string)
    requires k !in kws
    ensures Without(ScanAll(docs, kws), k) == ScanAll(docs, kws)
  {
    WithoutAbsent(ScanAll(docs, kws), k);
  }

  /** Deleting one more keyword from what is left after deleting others. */
  lemma {:induction false} WithoutAllSnoc(t: seq<SearchRow>, ks: seq<string>, k: string)
    ensures Without(WithoutAll(t, ks), k) == WithoutAll(t, ks + [k])
    decreases |t|
  {
    if |t| > 0 {
      WithoutAllSnoc(t[1..], ks, k);
      var r := t[0];
      var w := WithoutAll(t[1..], ks);
      assert r.keyword !in ks + [k] <==> r.keyword !in ks && r.keyword != k;
      if r.keyword !in ks {
        assert WithoutAll(t, ks) == [r] + w;
        WithoutCons(r, w, k);
      } else {
        assert WithoutAll(t, ks) == w;
      }
    }
  }

  lemma {:induction false} WithoutAllAppend(a: seq<SearchRow>, b: seq<SearchRow>, ks: seq<string>)
    ensures WithoutAll(a + b, ks) == WithoutAll(a, ks) + WithoutAll(b, ks)
    decreases |a|
  {
    if |a| == 0 {
      assert a + b == b;
    } else {
      assert (a + b)[1..] == a[1..] + b;
      WithoutAllAppend(a[1..], b, ks);
    }
  }

  /** Rows that all carry listed keywords are deleted entirely; rows that
      carry none are kept entirely. */
  lemma {:induction false} WithoutAllCovered(t: seq<SearchRow>, ks: seq<string>)
    ensures (forall i :: 0 <= i < |t| ==> t[i].keyword in ks) ==> WithoutAll(t, ks) == []
    ensures (forall i :: 0 <= i < |t| ==> t[i].keyword !in ks) ==> WithoutAll(t, ks) == t
    decreases |t|
  {
    if |t| > 0 {
      WithoutAllCovered(t[1..], ks);
      assert t == [t[0]] + t[1..];
    }
  }

  /** For distinct keywords, the table after indexing is the old rows of
      other keywords followed by the fresh scans, in keyword order. */
  lemma {:induction false} IndexAllShape(t: seq<SearchRow>, docs: seq<Doc>, kws: seq<string>)
    requires Distinct(kws)
    ensures IndexAll(t, docs, kws).0 == WithoutAll(t, kws) + ScanAll(docs, kws)
    decreases |kws|
  {
    if |kws| == 0 {
      WithoutAllCovered(t, kws);
    } else {
      var init := kws[..|kws| - 1];
      var last := kws[|kws| - 1];
      DistinctInit(kws);
      IndexAllShape(t, docs, init);
      var a := WithoutAll(t, init);
      var b := ScanAll(docs, init);
      var c := Scan(docs, last);
      IndexAllUnfold(t, docs, kws);
      assert IndexAll(t, docs, kws).0 == Without(a + b, last) + c;
      WithoutAppend(a, b, last);
      WithoutScanAll(docs, init, last);
      WithoutAllSnoc(t, init, last);
      InitLast(kws);
      assert Without(a, last) == WithoutAll(t, kws);
      ScanAllUnfold(docs, kws);
      AppendAssoc(Without(a, last), b, c);
    }
  }

  lemma ScanAllUnfold(docs: seq<Doc>, kws: seq<string>)
    requires |kws| > 0
    ensures ScanAll(docs, kws) == ScanAll(docs, kws[..|kws| - 1]) + Scan(docs, kws[|kws| - 1])
  {
  }

  lemma IndexAllUnfold(t: seq<SearchRow>, docs: seq<Doc>, kws: seq<string>)
    requires |kws| > 0
    ensures IndexAll(t, docs, kws).0
      == Without(IndexAll(t, docs, kws[..|kws| - 1]).0, kws[|kws| - 1]) + Scan(docs, kws[|kws| - 1])
  {
  }

  /** Running the indexer twice over the same corpus with the same distinct
      keywords leaves the table exactly as one run does. */
  lemma IndexAllIdempotent(t: seq<SearchRow>, docs: seq<Doc>, kws: seq<string>)
    requires Distinct(kws)
    ensures IndexAll(IndexAll(t, docs, kws).0, docs, kws).0 == IndexAll(t, docs, kws).0
  {
    var a := WithoutAll(t, kws);
    var b := ScanAll(docs, kws);
    IndexAllShape(t, docs, kws);
    IndexAllShape(a + b, docs, kws);
    WithoutAllAppend(a, b, kws);
    WithoutAllCovered(a, kws);
    WithoutAllCovered(b, kws);
    assert a + [] == a;
  }

  // ---------------------------------------------------------------------
  // The button

  datatype IndexOutcome = IndexOutcome(table: seq<SearchRow>, keywords: seq<string>, totalHits: nat)

  /** The whole "Search & Add to Database" action on the stored table: parse
      the text area, key the patterns by a dict (distinct keywords in order of
      first appearance), index them against the scannable documents and
      commit. With no keyword nothing is touched. */
  function RunIndexer(t: seq<SearchRow>, docs: seq<Doc>, input: string): (r: IndexOutcome)
    ensures Distinct(r.keywords)
    ensures forall k :: k in r.keywords <==> k in KeepLines(SplitLines(input))
    ensures forall k :: k in r.keywords ==> RowsOf(r.table, k) == Scan(docs, k)
    ensures forall k :: k !in r.keywords ==> RowsOf(r.table, k) == RowsOf(t, k)
    ensures r.totalHits == TotalHits(docs, r.keywords)
  {
    var parsed := ParseKeywords(input);
    if |parsed| == 0 then IndexOutcome(t, [], 0)
    else
      var kws := Dedup(parsed);
      DedupSameElements(parsed);
      var (t', hits) := IndexAll(t, docs, kws);
      IndexOutcome(t', kws, hits)
  }

  /** Pressing the button twice with the same input leaves the table as one
      press does. */
  lemma RunIndexerIdempotent(t: seq<SearchRow>, docs: seq<Doc>, input: string)
    ensures RunIndexer(RunIndexer(t, docs, input).table, docs, input).table == RunIndexer(t, docs, input).table
  {
    var parsed := ParseKeywords(input);
    if |parsed| > 0 {
      IndexAllIdempotent(t, docs, Dedup(parsed));
    }
  }
}
