/** The "Browse Files" tab: up to three optional filters combined with
    `AND`, then `ORDER BY f.dataset, f.filename LIMIT 500`. */
module Browse {
  import opened Basics
  import opened Matching
  import opened Corpus
  import opened Ranking

  const BrowseLimit: nat := 500

  /** The "Text status" choices: All, Has text, Needs OCR, No text. */
  datatype TextStatus = AnyStatus | WithText | NeedingOcr | WithoutText

  /** The three inputs. `dataset` is `None` for "All"; an empty `name`
      adds no condition. */
  datatype BrowseQuery = BrowseQuery(dataset: Option<int>, name: string, status: TextStatus)

  predicate StatusHolds(f: FileRec, s: TextStatus) {
    match s
    case AnyStatus => true
    case WithText => f.hasText
    case NeedingOcr => f.needsOcr
    case WithoutText => !f.hasText && !f.needsOcr
  }

  /** The `WHERE 1=1 AND ...` clause the tab assembles. */
  predicate Selected(f: FileRec, q: BrowseQuery) {
    && (q.dataset.None? || f.dataset == q.dataset.value)
    && (|q.name| == 0 || Like(f.filename, Contains(q.name)))
    && StatusHolds(f, q.status)
  }

  /** The `if search_filename` guard changes nothing: `LIKE '%%'` matches
      every filename. */
  lemma EmptyNameSelectsAll(f: FileRec, q: BrowseQuery)
    requires |q.name| == 0
    ensures Selected(f, q) <==>
      && (q.dataset.None? || f.dataset == q.dataset.value)
      && Like(f.filename, Contains(q.name))
      && StatusHolds(f, q.status)
  {
    EmptyContainsMatchesAll(f.filename);
  }

  /** For a name without `%` or `_`, the filename condition is plain
      containment up to ASCII case. */
  lemma NameIsContainment(f: FileRec, q: BrowseQuery)
    requires NoWildcards(q.name)
    ensures Selected(f, q) <==>
      && (q.dataset.None? || f.dataset == q.dataset.value)
      && Occurs(f.filename, q.name)
      && StatusHolds(f, q.status)
  {
    LikeContainsIffOccurs(f.filename, q.name);
    if |q.name| == 0 {
      assert MatchAt(f.filename, q.name, 0);
    }
  }

  // ---------------------------------------------------------------------
  // ORDER BY f.dataset, f.filename

  /** SQLite's default `BINARY` collation on text: code-point by
      code-point, a proper prefix first. */
  predicate TextLe(a: string, b: string)
    decreases |a|
  {
    |a| == 0 || (|b| > 0 && (a[0] < b[0] || (a[0] == b[0] && TextLe(a[1..], b[1..]))))
  }

  lemma {:induction false} TextLeTotal(a: string, b: string)
    ensures TextLe(a, b) || TextLe(b, a)
    decreases |a|
  {
    if |a| > 0 && |b| > 0 && a[0] == b[0] {
      TextLeTotal(a[1..], b[1..]);
    }
  }

  lemma {:induction false} TextLeTrans(a: string, b: string, c: string)
    requires TextLe(a, b) && TextLe(b, c)
    ensures TextLe(a, c)
    decreases |a|
  {
    if |a| > 0 && a[0] == b[0] && b[0] == c[0] {
      TextLeTrans(a[1..], b[1..], c[1..]);
    }
  }

  /** Two texts each ordered before the other are equal: the collation
      orders distinct filenames strictly. */
  lemma {:induction false} TextLeAntisymmetric(a: string, b: string)
    requires TextLe(a, b) && TextLe(b, a)
    ensures a == b
    decreases |a|
  {
    if |a| > 0 {
      TextLeAntisymmetric(a[1..], b[1..]);
      assert a == [a[0]] + a[1..] && b == [b[0]] + b[1..];
    }
  }

  /** Dataset first, then filename. */
  predicate Before(x: FileRec, y: FileRec) {
    x.dataset < y.dataset || (x.dataset == y.dataset && TextLe(x.filename, y.filename))
  }

  lemma BeforeIsPreorder()
    ensures TotalPreorder(Before)
  {
    forall x: FileRec, y: FileRec
      ensures Before(x, y) || Before(y, x)
    {
      TextLeTotal(x.filename, y.filename);
    }
    forall x: FileRec, y: FileRec, z: FileRec | Before(x, y) && Before(y, z)
      ensures Before(x, z)
    {
      if x.dataset == y.dataset == z.dataset {
        TextLeTrans(x.filename, y.filename, z.filename);
      }
    }
  }

  /** The files the tab lists: only selected files, at most 500 of them, in
      dataset-then-filename order; a selected file is left out only when the
      limit is reached and every listed file comes before it. No file is listed
      more often than it occurs among the rows. */
  function BrowseFiles(files: seq<FileRec>, q: BrowseQuery): (r: seq<FileRec>)
    ensures |r| <= BrowseLimit && multiset(r) <= multiset(files)
    ensures forall i :: 0 <= i < |r| ==> r[i] in files && Selected(r[i], q)
    ensures forall i, j :: 0 <= i < j < |r| ==> Before(r[i], r[j])
    ensures forall f :: f in files && Selected(f, q) && f !in r ==>
      |r| == BrowseLimit && forall i :: 0 <= i < |r| ==> Before(r[i], f)
  {
    BeforeIsPreorder();
    BrowseSelection(files, q);
    BrowseSubBag(files, q);
    SelectFirst(Filter(files, IsSelected(q)), BrowseLimit, Before).0
  }

  function IsSelected(q: BrowseQuery): FileRec -> bool {
    (f: FileRec) => Selected(f, q)
  }

  lemma BrowseSelection(files: seq<FileRec>, q: BrowseQuery)
    ensures var r := (BeforeIsPreorder(); SelectFirst(Filter(files, IsSelected(q)), BrowseLimit, Before).0);
      && |r| <= BrowseLimit
      && (forall i :: 0 <= i < |r| ==> r[i] in files && Selected(r[i], q))
      && (forall i, j :: 0 <= i < j < |r| ==> Before(r[i], r[j]))
      && (forall f :: f in files && Selected(f, q) && f !in r ==>
        |r| == BrowseLimit && forall i :: 0 <= i < |r| ==> Before(r[i], f))
  {
    var hits := Filter(files, IsSelected(q));
    BeforeIsPreorder();
    var sel := SelectFirst(hits, BrowseLimit, Before).0;
    SelectedFrom(hits, BrowseLimit, Before);
    forall f | f in files && Selected(f, q) && f !in sel
      ensures |sel| == BrowseLimit && forall i :: 0 <= i < |sel| ==> Before(sel[i], f)
    {
      assert IsSelected(q)(f);
      LeftOut(hits, BrowseLimit, Before, f);
    }
  }

  lemma BrowseSubBag(files: seq<FileRec>, q: BrowseQuery)
    ensures multiset((BeforeIsPreorder(); SelectFirst(Filter(files, IsSelected(q)), BrowseLimit, Before).0)) <= multiset(files)
  {
    var hits := Filter(files, IsSelected(q));
    BeforeIsPreorder();
    var sel := SelectFirst(hits, BrowseLimit, Before).0;
    SubBagTrans(sel, hits, files);
  }
}
