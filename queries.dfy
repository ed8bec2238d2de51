/**
 * The hook's two pure queries over the catalog: `filterFiles` (by subject
 * tab and by search term) and `sortFiles` (a stable sort of a copy by one of
 * four keys). The sort is defined as an insertion sort; `SortedStableUnique`
 * shows that every stable sort by the same comparator returns the same
 * sequence, so the choice of algorithm is immaterial.
 */
module Queries {
  import opened Strings
  import opened Sequences
  import opened Types

  // ---------------------------------------------------------------------
  // filterFiles
  // ---------------------------------------------------------------------

  /** The search test: the lower-cased name includes the lower-cased term. */
  predicate MatchesSearch(term: string, f: PDFFile) {
    Contains(Lower(f.name), Lower(term))
  }

  predicate HasSubject(subject: Subject, f: PDFFile) {
    f.subject == SubjectName(subject)
  }

  function SubjectIs(subject: Subject): PDFFile -> bool {
    f => HasSubject(subject, f)
  }

  function NameMatches(term: string): PDFFile -> bool {
    f => MatchesSearch(term, f)
  }

  function FilterFiles(files: seq<PDFFile>, subject: SubjectFilter, term: string): seq<PDFFile> {
    var bySubject := if subject.All? then files else Filter(SubjectIs(subject.subject), files);
    if term != "" then Filter(NameMatches(term), bySubject) else bySubject
  }

  /** What `filterFiles` keeps: the tab admits the record and its name matches the term. */
  predicate Selected(subject: SubjectFilter, term: string, f: PDFFile) {
    (subject.All? || HasSubject(subject.subject, f)) && MatchesSearch(term, f)
  }

  lemma {:induction false} FilterCongruent<T(!new)>(p: T -> bool, q: T -> bool, s: seq<T>)
    requires forall x :: p(x) == q(x)
    ensures Filter(p, s) == Filter(q, s)
  {
    if s != [] {
      FilterCongruent(p, q, s[1..]);
    }
  }

  lemma EmptyTermMatches(f: PDFFile)
    ensures MatchesSearch("", f)
  {
    assert Lower("") == "";
    ContainsEmpty(Lower(f.name));
  }

  function SelectedBy(subject: SubjectFilter, term: string): PDFFile -> bool {
    f => Selected(subject, term, f)
  }

  /** The two filters in a row are one filter by `Selected`. */
  lemma FilterFilesIsOneFilter(files: seq<PDFFile>, subject: SubjectFilter, term: string)
    ensures FilterFiles(files, subject, term) == Filter(SelectedBy(subject, term), files)
  {
    var sel := SelectedBy(subject, term);
    var ms := NameMatches(term);
    if subject.All? {
      if term == "" {
        forall i | 0 <= i < |files| ensures sel(files[i]) {
          EmptyTermMatches(files[i]);
        }
        FilterKeepsAll(sel, files);
      } else {
        assert forall f :: ms(f) == sel(f);
        FilterCongruent(ms, sel, files);
      }
    } else {
      var hs := SubjectIs(subject.subject);
      if term == "" {
        forall f ensures hs(f) == sel(f) {
          EmptyTermMatches(f);
        }
        FilterCongruent(hs, sel, files);
      } else {
        FilterTwice(hs, ms, files);
        assert forall f :: Both(hs, ms)(f) == sel(f);
        FilterCongruent(Both(hs, ms), sel, files);
      }
    }
  }

  /**
   * `filterFiles` keeps, in their original order, exactly the records the
   * tab and the term select, each as often as it occurs in the input.
   */
  lemma FilterFilesSpec(files: seq<PDFFile>, subject: SubjectFilter, term: string)
    ensures IsSubsequence(FilterFiles(files, subject, term), files)
    ensures forall i :: 0 <= i < |FilterFiles(files, subject, term)| ==>
      Selected(subject, term, FilterFiles(files, subject, term)[i])
    ensures forall f ::
              multiset(FilterFiles(files, subject, term))[f] == if Selected(subject, term, f) then multiset(files)[f] else 0
  {
    var sel := SelectedBy(subject, term);
    FilterFilesIsOneFilter(files, subject, term);
    FilterIsSubsequence(sel, files);
    forall f ensures multiset(Filter(sel, files))[f] == if sel(f) then multiset(files)[f] else 0 {
      FilterCount(sel, files, f);
    }
  }

  /** The `All` tab with no search term is the catalog unchanged. */
  lemma FilterFilesAllIsIdentity(files: seq<PDFFile>)
    ensures FilterFiles(files, All, "") == files
  {
  }

  // ---------------------------------------------------------------------
  // sortFiles
  // ---------------------------------------------------------------------

  /**
   * The comparator: negative when `a` goes first. Names and subjects
   * ascend; dates and sizes descend (newest and largest first).
   */
  function CompareBy(key: SortOption, a: PDFFile, b: PDFFile): int {
    match key
    case ByName => Compare(a.name, b.name)
    case ByDate => b.createdAt - a.createdAt
    case BySize => b.size - a.size
    case BySubject => Compare(a.subject, b.subject)
  }

  /** `a` may come before `b`. */
  predicate Precedes(key: SortOption, a: PDFFile, b: PDFFile) {
    CompareBy(key, a, b) <= 0
  }

  /** The comparator cannot tell `a` and `b` apart. */
  predicate Tied(key: SortOption, a: PDFFile, b: PDFFile) {
    CompareBy(key, a, b) == 0
  }

  /** The records tied with `y`. */
  function TiedWith(key: SortOption, y: PDFFile): PDFFile -> bool {
    f => Tied(key, f, y)
  }

  lemma CompareByFlip(key: SortOption, a: PDFFile, b: PDFFile)
    ensures CompareBy(key, a, b) == -CompareBy(key, b, a)
  {
    if key == ByName { CompareAntisymmetric(a.name, b.name); }
    if key == BySubject { CompareAntisymmetric(a.subject, b.subject); }
  }

  lemma PrecedesTransitive(key: SortOption, a: PDFFile, b: PDFFile, c: PDFFile)
    ensures Precedes(key, a, b) && Precedes(key, b, c) ==> Precedes(key, a, c)
  {
    if Precedes(key, a, b) && Precedes(key, b, c) {
      if key == ByName { CompareTransitive(a.name, b.name, c.name); }
      if key == BySubject { CompareTransitive(a.subject, b.subject, c.subject); }
    }
  }

  lemma TiedTransitive(key: SortOption, a: PDFFile, b: PDFFile, c: PDFFile)
    ensures Tied(key, a, b) && Tied(key, b, c) ==> Tied(key, a, c)
  {
    CompareByFlip(key, a, b);
    CompareByFlip(key, b, c);
    CompareByFlip(key, a, c);
    PrecedesTransitive(key, a, b, c);
    PrecedesTransitive(key, c, b, a);
  }

  predicate Sorted(key: SortOption, s: seq<PDFFile>) {
    forall i, j :: 0 <= i < j < |s| ==> Precedes(key, s[i], s[j])
  }

  /** Places `x` before the first element it may precede, so after every element it must follow. */
  function Insert(key: SortOption, x: PDFFile, s: seq<PDFFile>): seq<PDFFile> {
    if s == [] then [x]
    else if Precedes(key, x, s[0]) then [x] + s
    else [s[0]] + Insert(key, x, s[1..])
  }

  /** `[...files].sort(comparator)`: a sorted copy; the input is a value and stays as it was. */
  function SortFiles(files: seq<PDFFile>, key: SortOption): seq<PDFFile> {
    if files == [] then [] else Insert(key, files[0], SortFiles(files[1..], key))
  }

  lemma {:induction false} InsertPermutation(key: SortOption, x: PDFFile, s: seq<PDFFile>)
    ensures multiset(Insert(key, x, s)) == multiset(s) + multiset{x}
  {
    if s != [] && !Precedes(key, x, s[0]) {
      InsertPermutation(key, x, s[1..]);
      assert s == [s[0]] + s[1..];
    }
  }

  /** The sorted list holds the same records as the input, each as often. */
  lemma {:induction false} SortPermutation(files: seq<PDFFile>, key: SortOption)
    ensures multiset(SortFiles(files, key)) == multiset(files)
  {
    if files != [] {
      SortPermutation(files[1..], key);
      InsertPermutation(key, files[0], SortFiles(files[1..], key));
      assert files == [files[0]] + files[1..];
    }
  }

  /** A record that may precede everything in a sorted list may head it. */
  lemma ConsSorted(key: SortOption, h: PDFFile, t: seq<PDFFile>)
    requires Sorted(key, t)
    requires forall e :: e in t ==> Precedes(key, h, e)
    ensures Sorted(key, [h] + t)
  {
    var u := [h] + t;
    forall i, j | 0 <= i < j < |u| ensures Precedes(key, u[i], u[j]) {
      assert u[j] == t[j - 1];
      if i > 0 {
        assert u[i] == t[i - 1];
      }
    }
  }

  /** A record that may precede `x` and everything in `s` may precede everything in `Insert(x, s)`. */
  lemma InsertBounded(key: SortOption, b: PDFFile, x: PDFFile, s: seq<PDFFile>)
    requires Precedes(key, b, x)
    requires forall e :: e in s ==> Precedes(key, b, e)
    ensures forall e :: e in Insert(key, x, s) ==> Precedes(key, b, e)
  {
    InsertPermutation(key, x, s);
    forall e | e in Insert(key, x, s) ensures Precedes(key, b, e) {
      assert e in multiset(s) + multiset{x};
    }
  }

  lemma {:induction false} InsertSorted(key: SortOption, x: PDFFile, s: seq<PDFFile>)
    requires Sorted(key, s)
    ensures Sorted(key, Insert(key, x, s))
  {
    if s == [] {
    } else if Precedes(key, x, s[0]) {
      forall e | e in s ensures Precedes(key, x, e) {
        var k :| 0 <= k < |s| && s[k] == e;
        CompareByFlip(key, s[0], s[0]);
        PrecedesTransitive(key, x, s[0], e);
      }
      ConsSorted(key, x, s);
    } else {
      var t := s[1..];
      assert Sorted(key, t);
      InsertSorted(key, x, t);
      CompareByFlip(key, x, s[0]);
      forall e | e in t ensures Precedes(key, s[0], e) {
        var k :| 0 <= k < |t| && t[k] == e;
        assert e == s[k + 1];
      }
      InsertBounded(key, s[0], x, t);
      ConsSorted(key, s[0], Insert(key, x, t));
    }
  }

  /** The result is in comparator order. */
  lemma {:induction false} SortSorted(files: seq<PDFFile>, key: SortOption)
    ensures Sorted(key, SortFiles(files, key))
  {
    if files != [] {
      SortSorted(files[1..], key);
      InsertSorted(key, files[0], SortFiles(files[1..], key));
    }
  }

  /** Inserting `x` passes over no record tied with `x`, so among tied records `x` comes first. */
  lemma {:induction false} InsertKeepsTies(key: SortOption, y: PDFFile, x: PDFFile, s: seq<PDFFile>)
    ensures Filter(TiedWith(key, y), Insert(key, x, s)) == Filter(TiedWith(key, y), [x] + s)
  {
    var p := TiedWith(key, y);
    if s != [] && !Precedes(key, x, s[0]) {
      InsertKeepsTies(key, y, x, s[1..]);
      var a := s[0];
      var rest := s[1..];
      assert Insert(key, x, s) == [a] + Insert(key, x, rest);
      assert Filter(p, [a] + Insert(key, x, rest)) == (if p(a) then [a] else []) + Filter(p, Insert(key, x, rest));
      assert Filter(p, [x] + rest) == (if p(x) then [x] else []) + Filter(p, rest);
      assert ([x] + s)[1..] == s && s == [a] + rest;
      assert Filter(p, [x] + s) == (if p(x) then [x] else []) + Filter(p, s);
      assert Filter(p, s) == (if p(a) then [a] else []) + Filter(p, rest);
      // x and a cannot both be tied with y: they would be tied with each other, and x would precede a
      TiedTransitive(key, x, y, a);
      CompareByFlip(key, y, a);
    }
  }

  /** Stability: the records tied with any `y` keep their input order. */
  lemma {:induction false} SortStable(files: seq<PDFFile>, key: SortOption, y: PDFFile)
    ensures Filter(TiedWith(key, y), SortFiles(files, key)) == Filter(TiedWith(key, y), files)
  {
    if files != [] {
      var p := TiedWith(key, y);
      var rest := files[1..];
      SortStable(rest, key, y);
      InsertKeepsTies(key, y, files[0], SortFiles(rest, key));
      assert ([files[0]] + SortFiles(rest, key))[1..] == SortFiles(rest, key);
      assert files == [files[0]] + rest;
    }
  }

  lemma {:induction false} SortedIsFixed(files: seq<PDFFile>, key: SortOption)
    requires Sorted(key, files)
    ensures SortFiles(files, key) == files
  {
    if files != [] {
      SortedIsFixed(files[1..], key);
      assert files == [files[0]] + files[1..];
    }
  }

  /** Sorting a sorted list changes nothing, so sorting twice is sorting once. */
  lemma SortIdempotent(files: seq<PDFFile>, key: SortOption)
    ensures SortFiles(SortFiles(files, key), key) == SortFiles(files, key)
  {
    SortSorted(files, key);
    SortedIsFixed(SortFiles(files, key), key);
  }

  /** Equal tie classes in the same order give the same multiset. */
  lemma SameTiesSameMultiset(key: SortOption, r: seq<PDFFile>, t: seq<PDFFile>)
    requires forall y :: Filter(TiedWith(key, y), r) == Filter(TiedWith(key, y), t)
    ensures multiset(r) == multiset(t)
  {
    forall x ensures multiset(r)[x] == multiset(t)[x] {
      CompareByFlip(key, x, x);
      FilterCount(TiedWith(key, x), r, x);
      FilterCount(TiedWith(key, x), t, x);
      assert Filter(TiedWith(key, x), r) == Filter(TiedWith(key, x), t);
    }
  }

  /** Two sorted sequences holding the same records start with tied records. */
  lemma SortedHeadsTied(key: SortOption, r: seq<PDFFile>, t: seq<PDFFile>)
    requires Sorted(key, r) && Sorted(key, t) && multiset(r) == multiset(t) && r != []
    ensures |t| > 0 && Tied(key, r[0], t[0])
  {
    assert |t| == |multiset(t)| == |multiset(r)| == |r|;
    var x, y := r[0], t[0];
    assert y in multiset(r) && x in multiset(t);
    var k :| 0 <= k < |r| && r[k] == y;
    var m :| 0 <= m < |t| && t[m] == x;
    CompareByFlip(key, x, x);
    assert Precedes(key, x, y);
    assert Precedes(key, y, x);
    CompareByFlip(key, x, y);
  }

  /** Sorted sequences with the same tie classes start with the same record. */
  lemma SortedHeadsEqual(key: SortOption, r: seq<PDFFile>, t: seq<PDFFile>)
    requires Sorted(key, r) && Sorted(key, t) && r != []
    requires forall y :: Filter(TiedWith(key, y), r) == Filter(TiedWith(key, y), t)
    ensures t != [] && r[0] == t[0]
  {
    SameTiesSameMultiset(key, r, t);
    var x, y := r[0], t[0];
    SortedHeadsTied(key, r, t);
    CompareByFlip(key, x, x);
    CompareByFlip(key, x, y);
    var px := TiedWith(key, x);
    assert r == [x] + r[1..] && t == [y] + t[1..];
    assert Filter(px, r) == [x] + Filter(px, r[1..]);
    assert Filter(px, t) == [y] + Filter(px, t[1..]);
    assert Filter(px, r)[0] == x && Filter(px, t)[0] == y;
  }

  /** Two sorted sequences with the same tie classes in the same order are equal. */
  lemma {:induction false} SortedStableUnique(key: SortOption, r: seq<PDFFile>, t: seq<PDFFile>)
    requires Sorted(key, r) && Sorted(key, t)
    requires forall y :: Filter(TiedWith(key, y), r) == Filter(TiedWith(key, y), t)
    ensures r == t
    decreases |r|
  {
    SameTiesSameMultiset(key, r, t);
    assert |r| == |multiset(r)| == |multiset(t)| == |t|;
    if r != [] {
      SortedHeadsEqual(key, r, t);
      forall z ensures Filter(TiedWith(key, z), r[1..]) == Filter(TiedWith(key, z), t[1..]) {
        FilterTailsEqual(TiedWith(key, z), r, t);
      }
      assert Sorted(key, r[1..]) && Sorted(key, t[1..]);
      SortedStableUnique(key, r[1..], t[1..]);
      assert r == [r[0]] + r[1..] && t == [t[0]] + t[1..];
    }
  }

  /**
   * `sortFiles` is the stable sort by the comparator: whatever sequence is
   * in comparator order and keeps every tie class of `files` in input order
   * is the one `SortFiles` returns.
   */
  lemma SortFilesIsTheStableSort(files: seq<PDFFile>, key: SortOption, r: seq<PDFFile>)
    requires Sorted(key, r)
    requires forall y :: Filter(TiedWith(key, y), r) == Filter(TiedWith(key, y), files)
    ensures r == SortFiles(files, key)
  {
    SortSorted(files, key);
    forall y ensures Filter(TiedWith(key, y), r) == Filter(TiedWith(key, y), SortFiles(files, key)) {
      SortStable(files, key, y);
    }
    SortedStableUnique(key, r, SortFiles(files, key));
  }

  /** What the order is for each key: by date newest first, by size largest first, by name or subject ascending. */
  lemma SortOrder(files: seq<PDFFile>, key: SortOption)
    ensures key == ByDate ==> forall i, j :: 0 <= i < j < |SortFiles(files, key)| ==>
      SortFiles(files, key)[i].createdAt >= SortFiles(files, key)[j].createdAt
    ensures key == BySize ==> forall i, j :: 0 <= i < j < |SortFiles(files, key)| ==>
      SortFiles(files, key)[i].size >= SortFiles(files, key)[j].size
    ensures key == ByName ==> forall i, j :: 0 <= i < j < |SortFiles(files, key)| ==>
      Compare(SortFiles(files, key)[i].name, SortFiles(files, key)[j].name) <= 0
    ensures key == BySubject ==> forall i, j :: 0 <= i < j < |SortFiles(files, key)| ==>
      Compare(SortFiles(files, key)[i].subject, SortFiles(files, key)[j].subject) <= 0
  {
    SortSorted(files, key);
  }
}
