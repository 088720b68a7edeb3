/** The two snippet rules the dashboard shows next to a matching file: the
    full-text search result with its first match wrapped in `**`, and the
    stripped window around a fixed lower-case name on the Bannon tab. */
module Snippets {
  import opened Basics
  import opened Text
  import opened Matching

  // ---------------------------------------------------------------------
  // Full-text search highlight

  const HighlightRadius: nat := 200
  const HighlightFallback: nat := 400

  const Marker: string := "**"

  /** The context with the two markers of a span of length `len`, opened at
      `ms`, taken out again. */
  function Unmark(r: string, ms: nat, len: nat): string
    requires ms + len + 4 <= |r|
  {
    r[..ms] + r[ms + 2..ms + 2 + len] + r[ms + 4 + len..]
  }

  /** `r` is `context` with markers around the span of length `len` that
      starts at `ms`. */
  predicate Marked(r: string, context: string, ms: nat, len: nat) {
    && ms + len + 4 <= |r|
    && r[ms..ms + 2] == Marker
    && r[ms + 2 + len..ms + 4 + len] == Marker
    && Unmark(r, ms, len) == context
  }

  /** `context` with the span `[ms, ms + len)` wrapped in markers. */
  function Mark(context: string, ms: nat, len: nat): (r: string)
    requires ms + len <= |context|
    ensures |r| == |context| + 4
    ensures Marked(r, context, ms, len)
    ensures r[ms + 2..ms + 2 + len] == context[ms..ms + len]
  {
    var r := context[..ms] + Marker + context[ms..ms + len] + Marker + context[ms + len..];
    assert r[..ms] == context[..ms];
    assert r[ms + 2..ms + 2 + len] == context[ms..ms + len];
    assert r[ms + 4 + len..] == context[ms + len..];
    assert context[..ms] + context[ms..ms + len] + context[ms + len..] == context;
    r
  }

  /** The snippet under a search result. When the term occurs (ignoring
      ASCII case), the context runs from 200 characters before its first
      occurrence to 200 after its end, clipped to the text, with that
      occurrence wrapped in `**`: taking the markers out gives the context
      back, and the marked span is the term up to case. Otherwise it is the
      first 400 characters. */
  function Highlight(text: string, term: string): (r: string)
    ensures Find(text, term) < 0 ==> |r| == Min(HighlightFallback, |text|) && r == text[..|r|]
    ensures Find(text, term) >= 0 ==>
      var idx := Find(text, term);
      var w := Window(|text|, idx, idx + |term|, HighlightRadius);
      && Marked(r, text[w.0..w.1], idx - w.0, |term|)
      && MatchAt(r, term, idx - w.0 + 2)
  {
    var idx := Find(text, term);
    if idx >= 0 then
      var w := Window(|text|, idx, idx + |term|, HighlightRadius);
      MarkMatch(text, term, idx, w.0, w.1);
      Mark(text[w.0..w.1], idx - w.0, |term|)
    else
      text[..Min(HighlightFallback, |text|)]
  }

  /** Marking a match inside a slice of the text keeps it a match, two
      characters further on. */
  lemma MarkMatch(text: string, term: string, idx: nat, lo: nat, hi: nat)
    requires MatchAt(text, term, idx) && lo <= idx && idx + |term| <= hi <= |text|
    ensures MatchAt(Mark(text[lo..hi], idx - lo, |term|), term, idx - lo + 2)
  {
    var context := text[lo..hi];
    var ms := idx - lo;
    var r := Mark(context, ms, |term|);
    MatchAtSlice(text, term, idx, lo, hi);
    MatchAtSame(context, r, term, ms, ms + 2);
  }

  // ---------------------------------------------------------------------
  // Anchor snippet

  const AnchorRadius: nat := 300
  const AnchorFallback: nat := 600

  /** The Bannon-tab snippet for a lower-case name: from 300 characters
      before its first occurrence to 300 after that position (not after the
      end of the match), stripped of surrounding whitespace; the first 600
      characters when the name does not occur. `AnchorSnippetIsWindow` says
      which part of the window is kept. */
  function AnchorSnippet(text: string, name: string): (r: string)
    ensures |r| <= AnchorFallback
    ensures Find(text, name) < 0 ==> |r| == Min(AnchorFallback, |text|) && r == text[..|r|]
    ensures Find(text, name) >= 0 ==> Stripped(r)
  {
    var idx := Find(text, name);
    if idx >= 0 then Strip(AnchorWindow(text, idx))
    else text[..Min(AnchorFallback, |text|)]
  }

  /** `text[max(0, idx - 300):min(len(text), idx + 300)]`. */
  function AnchorWindow(text: string, idx: nat): (s: string)
    requires idx <= |text|
    ensures |s| <= 2 * AnchorRadius
  {
    text[Max(0, idx - AnchorRadius)..Min(|text|, idx + AnchorRadius)]
  }

  /** When the name occurs, the snippet is a slice of the text inside the
      window around the first occurrence, and only whitespace of the window
      is cut off at either end. */
  lemma AnchorSnippetIsWindow(text: string, name: string)
    requires Occurs(text, name)
    ensures var idx := Find(text, name);
      var lo := Max(0, idx - AnchorRadius);
      var hi := Min(|text|, idx + AnchorRadius);
      exists i, j :: lo <= i <= j <= hi && AnchorSnippet(text, name) == text[i..j]
        && AllSpace(text[lo..i]) && AllSpace(text[j..hi])
  {
    var idx := Find(text, name);
    var lo := Max(0, idx - AnchorRadius);
    var hi := Min(|text|, idx + AnchorRadius);
    assert AnchorSnippet(text, name) == Strip(text[lo..hi]);
    StripSlice(text, lo, hi);
  }

  /** Lower-casing never turns a non-space character into a space. */
  lemma LowerCharKeepsNonSpace(c: char)
    ensures IsSpace(LowerChar(c)) ==> IsSpace(c)
  {
  }

  /** A character matched against a non-space character is not a space. */
  lemma MatchedNonSpace(t: string, p: string, i: nat, k: nat)
    requires MatchAt(t, p, i) && k < |p| && !IsSpace(p[k])
    ensures !IsSpace(t[i + k])
  {
    LowerCharKeepsNonSpace(p[k]);
  }

  /** A whitespace-free match survives `strip()`, shifted by what was
      stripped from the front. */
  lemma StripKeepsMatch(s: string, name: string, p: nat)
    requires 0 < |name| && NoSpace(name) && MatchAt(s, name, p)
    ensures StripStart(s) <= p && MatchAt(Strip(s), name, p - StripStart(s))
  {
    MatchedNonSpace(s, name, p, 0);
    MatchedNonSpace(s, name, p, |name| - 1);
    StripKeeps(s, p, p + |name|);
    var i := StripStart(s);
    MatchAtSlice(s, name, p, i, i + |Strip(s)|);
  }

  /** The first match of a name no longer than the radius lies wholly inside
      the window around it. */
  lemma MatchInAnchorWindow(text: string, name: string)
    requires |name| <= AnchorRadius && Occurs(text, name)
    ensures var idx := Find(text, name);
      MatchAt(AnchorWindow(text, idx), name, idx - Max(0, idx - AnchorRadius))
  {
    var idx := Find(text, name);
    MatchAtSlice(text, name, idx, Max(0, idx - AnchorRadius), Min(|text|, idx + AnchorRadius));
  }

  /** A name without whitespace, no longer than the radius, survives in the
      stripped snippet: the snippet still contains it (up to case). */
  lemma AnchorSnippetShowsName(text: string, name: string)
    requires 0 < |name| <= AnchorRadius && NoSpace(name)
    requires Occurs(text, name)
    ensures Occurs(AnchorSnippet(text, name), name)
  {
    var idx := Find(text, name);
    var s := AnchorWindow(text, idx);
    var p := idx - Max(0, idx - AnchorRadius);
    MatchInAnchorWindow(text, name);
    StripKeepsMatch(s, name, p);
    assert MatchAt(AnchorSnippet(text, name), name, p - StripStart(s));
  }
}
