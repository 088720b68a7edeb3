/** Literal, case-insensitive matching of a term in a text, as the dashboard
    does it three ways: `str.find` on lower-cased copies (first occurrence),
    `re.finditer` of an escaped pattern with IGNORECASE (all leftmost
    non-overlapping occurrences), and SQLite's `LIKE '%term%'`, whose `%` and
    `_` are wildcards. Case folding is ASCII-only throughout. */
module Matching {
  import opened Basics
  import opened Text

  /** `p` occurs in `t` at position `i`, ignoring ASCII case. */
  predicate MatchAt(t: string, p: string, i: nat) {
    i + |p| <= |t| && forall k :: 0 <= k < |p| ==> LowerChar(t[i + k]) == LowerChar(p[k])
  }

  ghost predicate Occurs(t: string, p: string) {
    exists i: nat :: MatchAt(t, p, i)
  }

  // ---------------------------------------------------------------------
  // str.find

  /** First occurrence at or after `i`, or -1. */
  function FindFrom(t: string, p: string, i: nat): (r: int)
    ensures r == -1 || (i <= r && MatchAt(t, p, r))
    ensures r == -1 <==> forall j: nat :: i <= j ==> !MatchAt(t, p, j)
    ensures r >= 0 ==> forall j: nat :: i <= j < r ==> !MatchAt(t, p, j)
    decreases |t| + 1 - i
  {
    if i + |p| > |t| then -1
    else if MatchAt(t, p, i) then i
    else FindFrom(t, p, i + 1)
  }

  /** `t.lower().find(p.lower())` for ASCII folding: the first position where
      `p` occurs, or -1 when it occurs nowhere. */
  function Find(t: string, p: string): (r: int)
    ensures r == -1 <==> !Occurs(t, p)
    ensures r >= 0 ==> MatchAt(t, p, r) && forall j: nat :: j < r ==> !MatchAt(t, p, j)
  {
    FindFrom(t, p, 0)
  }

  // ---------------------------------------------------------------------
  // re.finditer

  /** Positions of the leftmost non-overlapping occurrences at or after `i`,
      scanning as `re.finditer` does: after a match the scan resumes at its
      end (one past it for an empty pattern). */
  function MatchesFrom(t: string, p: string, i: nat): (r: seq<nat>)
    ensures forall k :: 0 <= k < |r| ==> i <= r[k] && MatchAt(t, p, r[k])
    ensures forall k, l :: 0 <= k < l < |r| ==> r[k] + Max(|p|, 1) <= r[l]
    decreases |t| + 1 - i
  {
    if i + |p| > |t| then []
    else if MatchAt(t, p, i) then [i] + MatchesFrom(t, p, i + Max(|p|, 1))
    else MatchesFrom(t, p, i + 1)
  }

  /** Position `j` is reported in `r` or lies strictly inside a reported
      occurrence of length `len`. */
  predicate Covered(r: seq<nat>, j: nat, len: nat) {
    j in r || exists k :: 0 <= k < |r| && r[k] < j < r[k] + len
  }

  /** Leftmost scanning misses no occurrence except those overlapping an
      earlier reported one. */
  lemma {:induction false} MatchesFromLeftmost(t: string, p: string, i: nat, j: nat)
    requires i <= j && MatchAt(t, p, j)
    ensures Covered(MatchesFrom(t, p, i), j, |p|)
    decreases |t| + 1 - i
  {
    if i + |p| > |t| {
      assert false;
    } else if !MatchAt(t, p, i) {
      MatchesFromLeftmost(t, p, i + 1, j);
      assert MatchesFrom(t, p, i) == MatchesFrom(t, p, i + 1);
    } else if j < i + Max(|p|, 1) {
      CoveredByFirst(t, p, i, j);
    } else {
      MatchesFromLeftmost(t, p, i + Max(|p|, 1), j);
      CoveredByRest(t, p, i, j);
    }
  }

  lemma CoveredByFirst(t: string, p: string, i: nat, j: nat)
    requires i + |p| <= |t| && MatchAt(t, p, i)
    requires i <= j < i + Max(|p|, 1)
    ensures Covered(MatchesFrom(t, p, i), j, |p|)
  {
    var r := MatchesFrom(t, p, i);
    assert r[0] == i;
    if j > i {
      assert r[0] < j < r[0] + |p|;
    }
  }

  lemma CoveredByRest(t: string, p: string, i: nat, j: nat)
    requires i + |p| <= |t| && MatchAt(t, p, i)
    requires Covered(MatchesFrom(t, p, i + Max(|p|, 1)), j, |p|)
    ensures Covered(MatchesFrom(t, p, i), j, |p|)
  {
    var rest := MatchesFrom(t, p, i + Max(|p|, 1));
    var r := [i] + rest;
    assert MatchesFrom(t, p, i) == r;
    if j in rest {
      assert j in r;
    } else {
      var k :| 0 <= k < |rest| && rest[k] < j < rest[k] + |p|;
      assert r[k + 1] == rest[k];
    }
  }

  /** The scan reports something exactly when there is an occurrence, and
      its first report is the first occurrence. */
  lemma {:induction false} MatchesFromFirst(t: string, p: string, i: nat)
    ensures var r := MatchesFrom(t, p, i);
      (|r| > 0 <==> FindFrom(t, p, i) >= 0) && (|r| > 0 ==> r[0] == FindFrom(t, p, i))
    decreases |t| + 1 - i
  {
    var r := MatchesFrom(t, p, i);
    if i + |p| > |t| {
      assert r == [] && FindFrom(t, p, i) == -1;
    } else if MatchAt(t, p, i) {
      assert r[0] == i && FindFrom(t, p, i) == i;
      assert (|r| > 0 <==> FindFrom(t, p, i) >= 0) && (|r| > 0 ==> r[0] == FindFrom(t, p, i));
    } else {
      MatchesFromFirst(t, p, i + 1);
      assert r == MatchesFrom(t, p, i + 1);
      assert FindFrom(t, p, i) == FindFrom(t, p, i + 1);
      assert (|r| > 0 <==> FindFrom(t, p, i) >= 0) && (|r| > 0 ==> r[0] == FindFrom(t, p, i));
    }
  }

  function Matches(t: string, p: string): (r: seq<nat>)
    ensures |r| > 0 <==> Occurs(t, p)
    ensures |r| > 0 ==> r[0] == Find(t, p)
  {
    MatchesFromFirst(t, p, 0);
    MatchesFrom(t, p, 0)
  }

  /** `len(list(pattern.finditer(t)))`. */
  function CountMatches(t: string, p: string): (n: nat)
    ensures n > 0 <==> Occurs(t, p)
  {
    |Matches(t, p)|
  }

  // ---------------------------------------------------------------------
  // SQLite LIKE

  predicate NoWildcards(p: string) {
    '%' !in p && '_' !in p
  }

  /** SQLite's `s LIKE pat` without an ESCAPE clause: `%` matches any run of
      characters, `_` any one character, and other characters match
      themselves up to ASCII case. */
  predicate Like(s: string, pat: string)
    decreases |s| + |pat|
  {
    if |pat| == 0 then |s| == 0
    else if pat[0] == '%' then Like(s, pat[1..]) || (|s| > 0 && Like(s[1..], pat))
    else |s| > 0 && (pat[0] == '_' || LowerChar(s[0]) == LowerChar(pat[0])) && Like(s[1..], pat[1..])
  }

  /** The pattern the dashboard builds from a term: `f"%{term}%"`. */
  function Contains(term: string): string {
    "%" + term + "%"
  }

  /** `'%'` matches every string. */
  lemma {:induction false} LikeAnything(s: string)
    ensures Like(s, "%")
    decreases |s|
  {
    if |s| > 0 {
      LikeAnything(s[1..]);
    }
  }

  /** An empty filter `'%%'` matches every string, so skipping the filter
      when the term is empty changes nothing. */
  lemma EmptyContainsMatchesAll(s: string)
    ensures Like(s, Contains(""))
  {
    assert Contains("") == "%%";
    assert Contains("")[1..] == "%";
    LikeAnything(s);
  }

  /** For a wildcard-free term, `s LIKE term || '%'` says exactly that `s`
      starts with `term` up to ASCII case. */
  lemma {:induction false} LikePrefix(s: string, q: string)
    requires NoWildcards(q)
    ensures Like(s, q + "%") <==> MatchAt(s, q, 0)
    decreases |q|
  {
    if |q| == 0 {
      assert q + "%" == "%";
      LikeAnything(s);
    } else {
      assert (q + "%")[0] == q[0];
      assert (q + "%")[1..] == q[1..] + "%";
      assert NoWildcards(q[1..]) by {
        assert forall c :: c in q[1..] ==> c in q;
      }
      if |s| > 0 {
        LikePrefix(s[1..], q[1..]);
        if MatchAt(s, q, 0) {
          assert MatchAt(s[1..], q[1..], 0) by {
            forall k | 0 <= k < |q[1..]|
              ensures LowerChar(s[1..][k]) == LowerChar(q[1..][k])
            {
              assert LowerChar(s[k + 1]) == LowerChar(q[k + 1]);
            }
          }
        }
        if LowerChar(s[0]) == LowerChar(q[0]) && MatchAt(s[1..], q[1..], 0) {
          forall k | 0 <= k < |q|
            ensures LowerChar(s[k]) == LowerChar(q[k])
          {
            if k > 0 {
              assert LowerChar(s[1..][k - 1]) == LowerChar(q[1..][k - 1]);
            }
          }
        }
      }
    }
  }

  /** `s LIKE '%' || q` says that some suffix of `s` matches `q`. */
  lemma {:induction false} LikeLeadingPercent(s: string, q: string)
    ensures Like(s, "%" + q) <==> exists i :: 0 <= i <= |s| && Like(s[i..], q)
    decreases |s|
  {
    var pat := "%" + q;
    assert pat[0] == '%' && pat[1..] == q;
    assert s[0..] == s;
    if |s| > 0 {
      LikeLeadingPercent(s[1..], q);
      if Like(s[1..], pat) {
        var i :| 0 <= i <= |s[1..]| && Like(s[1..][i..], q);
        assert s[1..][i..] == s[i + 1..];
      }
      if i :| 0 < i <= |s| && Like(s[i..], q) {
        assert s[1..][i - 1..] == s[i..];
      }
    }
  }

  /** For a wildcard-free term, the SQL filter `LIKE '%term%'` holds exactly
      when the term occurs in the text up to ASCII case. */
  lemma LikeContainsIffOccurs(s: string, term: string)
    requires NoWildcards(term)
    ensures Like(s, Contains(term)) <==> Occurs(s, term)
  {
    assert Contains(term) == "%" + (term + "%");
    LikeLeadingPercent(s, term + "%");
    if Like(s, Contains(term)) {
      var i :| 0 <= i <= |s| && Like(s[i..], term + "%");
      LikePrefix(s[i..], term);
      ShiftMatch(s, term, i);
    }
    if Occurs(s, term) {
      var i: nat :| MatchAt(s, term, i);
      ShiftMatch(s, term, i);
      LikePrefix(s[i..], term);
    }
  }

  lemma ShiftMatch(s: string, p: string, i: nat)
    requires i <= |s|
    ensures MatchAt(s[i..], p, 0) <==> MatchAt(s, p, i)
  {
    if MatchAt(s, p, i) {
      forall k | 0 <= k < |p|
        ensures LowerChar(s[i..][k]) == LowerChar(p[k])
      {
        assert s[i..][k] == s[i + k];
      }
    }
    if MatchAt(s[i..], p, 0) {
      forall k | 0 <= k < |p|
        ensures LowerChar(s[i + k]) == LowerChar(p[k])
      {
        assert s[i..][k] == s[i + k];
      }
    }
  }

  /** An occurrence is one wherever the same characters stand. */
  lemma MatchAtSame(a: string, b: string, p: string, i: nat, j: nat)
    requires MatchAt(a, p, i) && j + |p| <= |b| && b[j..j + |p|] == a[i..i + |p|]
    ensures MatchAt(b, p, j)
  {
    forall k | 0 <= k < |p|
      ensures LowerChar(b[j + k]) == LowerChar(p[k])
    {
      assert b[j..j + |p|][k] == a[i..i + |p|][k];
    }
  }

  /** An occurrence inside a slice is an occurrence in the slice. */
  lemma MatchAtSlice(t: string, p: string, i: nat, lo: nat, hi: nat)
    requires MatchAt(t, p, i) && lo <= i && i + |p| <= hi <= |t|
    ensures MatchAt(t[lo..hi], p, i - lo)
  {
    forall k | 0 <= k < |p|
      ensures LowerChar(t[lo..hi][i - lo + k]) == LowerChar(p[k])
    {
      assert t[lo..hi][i - lo + k] == t[i + k];
    }
  }

  // ---------------------------------------------------------------------
  // Context windows

  /** The clipped window `[max(0, lo - radius), min(n, hi + radius))` around
      the span `[lo, hi)` of a text of length `n`: it reaches `radius`
      characters past each end of the span unless the text ends first. */
  function Window(n: nat, lo: nat, hi: nat, radius: nat): (w: (nat, nat))
    requires lo <= hi <= n
    ensures w.0 <= lo && hi <= w.1 <= n
    ensures lo - w.0 <= radius && w.1 - hi <= radius
    ensures w.0 == 0 || lo - w.0 == radius
    ensures w.1 == n || w.1 - hi == radius
  {
    (Max(0, lo - radius), Min(n, hi + radius))
  }
}
