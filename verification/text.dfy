/** String primitives the dashboard relies on, modelled on Python's str:
    whitespace as `str.isspace`, `strip()`, `split('\n')`, `split()` and
    `' '.join(...)`, plus ASCII-only lower-casing (the case folding that both
    SQLite's LIKE and the model of `re.IGNORECASE` / `str.lower()` use). */
module Text {
  import opened Basics

  /** Python's `str.isspace` for one character. */
  predicate IsSpace(c: char) {
    var n := c as int;
    (9 <= n <= 13) || (28 <= n <= 32) || n == 0x85 || n == 0xA0 || n == 0x1680
    || (0x2000 <= n <= 0x200A) || n == 0x2028 || n == 0x2029 || n == 0x202F
    || n == 0x205F || n == 0x3000
  }

  /** ASCII lower-casing; every other character maps to itself. */
  function LowerChar(c: char): (r: char)
    ensures IsSpace(c) ==> r == c
    ensures 'A' <= c <= 'Z' || r == c
  {
    if 'A' <= c <= 'Z' then (c as int + 32) as char else c
  }

  predicate NoSpace(s: string) {
    forall i :: 0 <= i < |s| ==> !IsSpace(s[i])
  }

  predicate AllSpace(s: string) {
    forall i :: 0 <= i < |s| ==> IsSpace(s[i])
  }

  /** No whitespace at either end: what `strip()` leaves behind. */
  predicate Stripped(s: string) {
    |s| > 0 ==> !IsSpace(s[0]) && !IsSpace(s[|s| - 1])
  }

  // ---------------------------------------------------------------------
  // strip()

  function TrimStart(s: string): (r: string)
    ensures |r| <= |s| && r == s[|s| - |r|..]
    ensures AllSpace(s[..|s| - |r|])
    ensures |r| > 0 ==> !IsSpace(r[0])
  {
    if |s| > 0 && IsSpace(s[0]) then TrimStart(s[1..]) else s
  }

  function TrimEnd(s: string): (r: string)
    ensures |r| <= |s| && r == s[..|r|]
    ensures AllSpace(s[|r|..])
    ensures |r| > 0 ==> !IsSpace(r[|r| - 1])
  {
    if |s| > 0 && IsSpace(s[|s| - 1]) then TrimEnd(s[..|s| - 1]) else s
  }

  /** Python's `str.strip()`: whitespace removed from both ends, so the
      result has none at either end (see `StripIsSlice` for what is kept). */
  function Strip(s: string): (r: string)
    ensures Stripped(r)
    ensures |r| <= |s|
  {
    TrimStart(TrimEnd(s))
  }

  /** What `strip()` removes is whitespace at the two ends and nothing else. */
  lemma StripIsSlice(s: string)
    ensures exists i, j :: 0 <= i <= j <= |s| && Strip(s) == s[i..j] && AllSpace(s[..i]) && AllSpace(s[j..])
  {
    var e := TrimEnd(s);
    var r := TrimStart(e);
    var i := |e| - |r|;
    assert r == s[i..|e|];
    assert AllSpace(s[..i]) by {
      assert s[..i] == e[..i];
    }
  }

  /** Stripping a slice `t[lo..hi]` keeps a slice of `t` inside it and cuts
      only whitespace at its two ends. */
  lemma StripSlice(t: string, lo: nat, hi: nat)
    requires lo <= hi <= |t|
    ensures exists i, j :: lo <= i <= j <= hi && Strip(t[lo..hi]) == t[i..j] && AllSpace(t[lo..i]) && AllSpace(t[j..hi])
  {
    var s := t[lo..hi];
    StripBorders(s);
    SliceBorders(t, lo, hi, s, StripStart(s), StripStart(s) + |Strip(s)|, Strip(s));
  }

  /** A slice `r` of `s == t[lo..hi]` with only whitespace around it in `s`
      is a slice of `t` with only whitespace between it and `lo` and `hi`. */
  lemma SliceBorders(t: string, lo: nat, hi: nat, s: string, a: nat, b: nat, r: string)
    requires lo <= hi <= |t| && s == t[lo..hi] && a <= b <= |s|
    requires r == s[a..b] && AllSpace(s[0..a]) && AllSpace(s[b..|s|])
    ensures exists i, j :: lo <= i <= j <= hi && r == t[i..j] && AllSpace(t[lo..i]) && AllSpace(t[j..hi])
  {
    SliceOfSlice(t, lo, hi, a, b);
    SliceOfSlice(t, lo, hi, 0, a);
    SliceOfSlice(t, lo, hi, b, hi - lo);
    assert r == t[lo + a..lo + b] && AllSpace(t[lo..lo + a]) && AllSpace(t[lo + b..hi]);
  }

  /** Where the text kept by `Strip` starts. */
  function StripStart(s: string): (i: nat)
    ensures i + |Strip(s)| <= |s| && Strip(s) == s[i..i + |Strip(s)|]
  {
    var e := TrimEnd(s);
    |e| - |TrimStart(e)|
  }

  /** The text kept by `Strip` starts at `StripStart`, and everything
      before and after it is whitespace. */
  lemma StripBorders(s: string)
    ensures var i := StripStart(s); var j := i + |Strip(s)|;
      j <= |s| && Strip(s) == s[i..j] && AllSpace(s[0..i]) && AllSpace(s[j..|s|])
  {
    var e := TrimEnd(s);
    var i := |e| - |TrimStart(e)|;
    assert AllSpace(s[0..i]) by {
      assert s[0..i] == e[..i];
    }
    assert AllSpace(s[|e|..|s|]) by {
      assert s[|e|..|s|] == s[|e|..];
    }
  }

  /** Stripping keeps every character between two non-space ones. */
  lemma StripKeeps(s: string, a: nat, b: nat)
    requires a < b <= |s| && !IsSpace(s[a]) && !IsSpace(s[b - 1])
    ensures StripStart(s) <= a && b <= StripStart(s) + |Strip(s)|
  {
    var e := TrimEnd(s);
    var i := StripStart(s);
    forall m | |e| <= m < |s|
      ensures IsSpace(s[m])
    {
      assert s[|e|..][m - |e|] == s[m];
    }
    forall m | 0 <= m < i
      ensures IsSpace(s[m])
    {
      assert e[..i][m] == e[m] == s[m];
    }
  }

  lemma StripDropsLeadingSpace(c: char, s: string)
    requires IsSpace(c)
    ensures Strip([c] + s) == Strip(s)
  {
    TrimEndPrepend(c, s);
    assert ([c] + TrimEnd(s))[1..] == TrimEnd(s);
  }

  lemma StripDropsTrailingSpace(s: string, c: char)
    requires IsSpace(c)
    ensures Strip(s + [c]) == Strip(s)
  {
    assert (s + [c])[..|s|] == s;
  }

  /** Trimming the end of a string is unaffected by a character put in front,
      unless the rest trims to nothing. */
  lemma {:induction false} TrimEndPrepend(c: char, s: string)
    ensures TrimEnd([c] + s) == (if TrimEnd(s) == [] then (if IsSpace(c) then [] else [c]) else [c] + TrimEnd(s))
    decreases |s|
  {
    var cs := [c] + s;
    if |s| == 0 {
      assert cs == [c];
      if IsSpace(c) {
        assert cs[..0] == [];
      }
    } else if IsSpace(s[|s| - 1]) {
      assert cs[..|cs| - 1] == [c] + s[..|s| - 1];
      TrimEndPrepend(c, s[..|s| - 1]);
    } else {
      assert TrimEnd(s) == s;
    }
  }

  // ---------------------------------------------------------------------
  // split('\n') and '\n'.join(...)

  /** Python's `s.split('\n')`: always at least one piece, none containing a
      newline. */
  function SplitLines(s: string): (ls: seq<string>)
    ensures |ls| >= 1
    ensures forall i :: 0 <= i < |ls| ==> '\n' !in ls[i]
  {
    if |s| == 0 then [""]
    else if s[0] == '\n' then [""] + SplitLines(s[1..])
    else
      var rest := SplitLines(s[1..]);
      [[s[0]] + rest[0]] + rest[1..]
  }

  /** Python's `'\n'.join(ls)`. */
  function JoinLines(ls: seq<string>): string {
    if |ls| == 0 then ""
    else if |ls| == 1 then ls[0]
    else ls[0] + "\n" + JoinLines(ls[1..])
  }

  /** Joining the pieces of a split gives the string back. */
  lemma {:induction false} JoinSplitLines(s: string)
    ensures JoinLines(SplitLines(s)) == s
    decreases |s|
  {
    if |s| == 0 {
    } else if s[0] == '\n' {
      JoinSplitLines(s[1..]);
      assert s == "\n" + s[1..];
    } else {
      var rest := SplitLines(s[1..]);
      JoinSplitLines(s[1..]);
      assert s == [s[0]] + s[1..];
      if |rest| == 1 {
      } else {
        assert JoinLines(rest) == rest[0] + "\n" + JoinLines(rest[1..]);
      }
    }
  }

  /** Splitting the join of newline-free pieces gives the pieces back. */
  lemma {:induction false} SplitJoinLines(ls: seq<string>)
    requires |ls| >= 1
    requires forall i :: 0 <= i < |ls| ==> '\n' !in ls[i]
    ensures SplitLines(JoinLines(ls)) == ls
    decreases |ls|
  {
    if |ls| == 1 {
      SplitLinesNoNewline(ls[0], "");
      assert ls[0] + "" == ls[0];
    } else {
      SplitJoinLines(ls[1..]);
      var tail := "\n" + JoinLines(ls[1..]);
      assert JoinLines(ls) == ls[0] + tail;
      SplitLinesNoNewline(ls[0], tail);
      assert tail[1..] == JoinLines(ls[1..]);
      assert SplitLines(tail) == [""] + ls[1..];
      assert ls[0] + "" == ls[0];
      assert ls == [ls[0]] + ls[1..];
    }
  }

  /** A newline-free prefix is glued onto the first piece. */
  lemma {:induction false} SplitLinesNoNewline(w: string, x: string)
    requires '\n' !in w
    ensures SplitLines(w + x) == [w + SplitLines(x)[0]] + SplitLines(x)[1..]
    decreases |w|
  {
    if |w| == 0 {
      assert w + x == x;
      assert w + SplitLines(x)[0] == SplitLines(x)[0];
    } else {
      assert (w + x)[1..] == w[1..] + x;
      SplitLinesNoNewline(w[1..], x);
      assert [w[0]] + (w[1..] + SplitLines(x)[0]) == w + SplitLines(x)[0];
    }
  }

  /** The pieces after one more character: a newline opens a new piece,
      any other character extends the last one. */
  function SnocLines(ls: seq<string>, c: char): seq<string>
    requires |ls| > 0
  {
    if c == '\n' then ls + [""] else ls[..|ls| - 1] + [ls[|ls| - 1] + [c]]
  }

  /** Appending one character either opens a new piece (a newline) or
      extends the last piece. */
  lemma {:induction false} SplitLinesSnoc(s: string, c: char)
    ensures var ls := SplitLines(s);
      SplitLines(s + [c]) == if c == '\n' then ls + [""] else ls[..|ls| - 1] + [ls[|ls| - 1] + [c]]
    decreases |s|
  {
    if |s| == 0 {
      SplitLinesSnocEmpty(c);
    } else {
      SplitLinesSnoc(s[1..], c);
      if s[0] == '\n' {
        SplitLinesSnocNewline(s, c);
      } else {
        SplitLinesSnocChar(s, c);
      }
    }
  }

  lemma SplitLinesSnocEmpty(c: char)
    ensures SplitLines([c]) == SnocLines(SplitLines(""), c)
  {
    var sc := [c];
    assert sc[1..] == [];
    assert SplitLines(sc[1..]) == [""];
    if c != '\n' {
      assert SplitLines(sc) == [[c] + ""];
      assert [c] + "" == "" + [c];
    }
  }

  lemma SplitLinesSnocNewline(s: string, c: char)
    requires |s| > 0 && s[0] == '\n'
    requires SplitLines(s[1..] + [c]) == SnocLines(SplitLines(s[1..]), c)
    ensures SplitLines(s + [c]) == SnocLines(SplitLines(s), c)
  {
    var sc := s + [c];
    assert sc[1..] == s[1..] + [c];
    SnocLinesBlankHead(SplitLines(s[1..]), c);
  }

  lemma SplitLinesSnocChar(s: string, c: char)
    requires |s| > 0 && s[0] != '\n'
    requires SplitLines(s[1..] + [c]) == SnocLines(SplitLines(s[1..]), c)
    ensures SplitLines(s + [c]) == SnocLines(SplitLines(s), c)
  {
    var sc := s + [c];
    assert sc[1..] == s[1..] + [c];
    SnocLinesCharHead(s[0], SplitLines(s[1..]), c);
  }

  /** A piece opened in front is untouched by the new character. */
  lemma SnocLinesBlankHead(ls: seq<string>, c: char)
    requires |ls| > 0
    ensures [""] + SnocLines(ls, c) == SnocLines([""] + ls, c)
  {
    if c == '\n' {
      AppendAssoc([""], ls, [""]);
    } else {
      var y := ls[|ls| - 1] + [c];
      InitLastCons("", ls, y);
    }
  }

  /** A character put in front of the first piece commutes with the new
      character at the end. */
  lemma SnocLinesCharHead(x: char, ls: seq<string>, c: char)
    requires |ls| > 0
    ensures var r := SnocLines(ls, c);
      [[x] + r[0]] + r[1..] == SnocLines([[x] + ls[0]] + ls[1..], c)
  {
    var h := [x] + ls[0];
    var t := ls[1..];
    var r := SnocLines(ls, c);
    if c == '\n' {
      assert r[1..] == t + [""];
      AppendAssoc([h], t, [""]);
    } else if |ls| == 1 {
      assert r == [ls[0] + [c]];
      AppendAssoc([x], ls[0], [c]);
    } else {
      var y := ls[|ls| - 1] + [c];
      InitLastTail(ls, y);
      InitLastCons(h, t, y);
    }
  }

  // ---------------------------------------------------------------------
  // split() and ' '.join(...)

  /** Python's `s.split()` with no separator: the maximal runs of
      non-whitespace characters, in order. */
  function Words(s: string): (ws: seq<string>)
    ensures forall i :: 0 <= i < |ws| ==> |ws[i]| > 0 && NoSpace(ws[i])
    ensures |s| > 0 && !IsSpace(s[0]) ==> |ws| > 0 && ws[0][0] == s[0]
  {
    if |s| == 0 then []
    else if IsSpace(s[0]) then Words(s[1..])
    else
      var ws := Words(s[1..]);
      if |s| > 1 && !IsSpace(s[1]) then [[s[0]] + ws[0]] + ws[1..] else [[s[0]]] + ws
  }

  /** Python's `' '.join(ws)`. */
  function JoinWords(ws: seq<string>): string {
    if |ws| == 0 then ""
    else if |ws| == 1 then ws[0]
    else ws[0] + " " + JoinWords(ws[1..])
  }

  /** Whitespace-normal text: no whitespace at either end, and every
      whitespace character is a single ' ' between two non-whitespace ones. */
  predicate Normalized(s: string) {
    forall i :: 0 <= i < |s| && IsSpace(s[i]) ==> s[i] == ' ' && 0 < i && i + 1 < |s| && !IsSpace(s[i + 1])
  }

  predicate WordList(ws: seq<string>) {
    forall i :: 0 <= i < |ws| ==> |ws[i]| > 0 && NoSpace(ws[i])
  }

  /** `' '.join(s.split())`: collapses every run of whitespace into one
      space and drops leading and trailing whitespace. The result is
      whitespace-normal and has exactly the words of `s`. */
  function Collapse(s: string): (r: string)
    ensures Normalized(r)
    ensures Words(r) == Words(s)
  {
    var ws := Words(s);
    JoinWordsNormalized(ws);
    WordsOfJoin(ws);
    JoinWords(ws)
  }

  lemma {:induction false} JoinWordsNormalized(ws: seq<string>)
    requires WordList(ws)
    ensures Normalized(JoinWords(ws))
    ensures |ws| > 0 ==> |JoinWords(ws)| > 0 && JoinWords(ws)[0] == ws[0][0]
    decreases |ws|
  {
    if |ws| <= 1 {
    } else {
      var rest := JoinWords(ws[1..]);
      JoinWordsNormalized(ws[1..]);
      var r := ws[0] + " " + rest;
      assert r == JoinWords(ws);
      forall i | 0 <= i < |r| && IsSpace(r[i])
        ensures r[i] == ' ' && 0 < i && i + 1 < |r| && !IsSpace(r[i + 1])
      {
        if i < |ws[0]| {
          assert false;
        } else if i == |ws[0]| {
          assert r[i + 1] == rest[0];
        } else {
          assert r[i] == rest[i - |ws[0]| - 1];
          assert r[i + 1] == rest[i - |ws[0]|];
        }
      }
    }
  }

  /** Splitting the space-join of a word list gives the list back. */
  lemma {:induction false} WordsOfJoin(ws: seq<string>)
    requires WordList(ws)
    ensures Words(JoinWords(ws)) == ws
    decreases |ws|
  {
    if |ws| == 0 {
    } else if |ws| == 1 {
      WordsOfWordThen(ws[0], "");
      assert ws[0] + "" == ws[0];
    } else {
      var rest := ws[1..];
      assert WordList(rest);
      WordsOfJoin(rest);
      var tail := " " + JoinWords(rest);
      AppendAssoc(ws[0], " ", JoinWords(rest));
      WordsOfWordThen(ws[0], tail);
      assert tail[1..] == JoinWords(rest);
      assert Words(tail) == Words(JoinWords(rest));
      assert ws == [ws[0]] + rest;
    }
  }

  /** A word followed by nothing or by whitespace is the first word. */
  lemma {:induction false} WordsOfWordThen(w: string, x: string)
    requires |w| > 0 && NoSpace(w)
    requires |x| == 0 || IsSpace(x[0])
    ensures Words(w + x) == [w] + Words(x)
    decreases |w|
  {
    var s := w + x;
    assert s[1..] == w[1..] + x;
    if |w| == 1 {
      assert w[1..] + x == x;
      assert [w[0]] == w;
    } else {
      WordsOfWordThen(w[1..], x);
      assert s[1] == w[1];
      assert [w[0]] + w[1..] == w;
    }
  }
}
