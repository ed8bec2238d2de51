/**
 * The page component: the subject tab that is active, the list it shows
 * (the catalog filtered by that tab, with no search term) and the count
 * badge of every tab.
 */
module Dashboard {
  import opened Sequences
  import opened Types
  import opened Queries

  /**
   * `fileCounts`: start from `All` mapped to the catalog size, then set the
   * count of every subject of the subject list in turn. Every tab ends up
   * with the size of the list that tab shows, zero included.
   */
  method FileCounts(files: seq<PDFFile>) returns (counts: map<SubjectFilter, nat>)
    ensures forall t: SubjectFilter :: t in counts
    ensures counts[All] == |files|
    ensures forall t: SubjectFilter :: counts[t] == |FilterFiles(files, t, "")|
  {
    counts := map[All := |files|];
    for i := 0 to |Subjects|
      invariant forall t :: t in counts <==> t == All || (t.Only? && t.subject in Subjects[..i])
      invariant forall t :: t in counts ==> counts[t] == |FilterFiles(files, t, "")|
    {
      var subject := Subjects[i];
      counts := counts[Only(subject) := |Filter(SubjectIs(subject), files)|];
    }
    SubjectsComplete();
    assert Subjects[..|Subjects|] == Subjects;
  }

  /** The per-subject counts of `subjects`, added up. */
  function SubjectTotal(subjects: seq<Subject>, files: seq<PDFFile>): nat {
    if subjects == [] then 0
    else |FilterFiles(files, Only(subjects[0]), "")| + SubjectTotal(subjects[1..], files)
  }

  /** How many of `subjects` are stored under the string `name`. */
  function Matches(subjects: seq<Subject>, name: string): nat {
    if subjects == [] then 0
    else (if SubjectName(subjects[0]) == name then 1 else 0) + Matches(subjects[1..], name)
  }

  lemma {:induction false} SubjectTotalEmpty(subjects: seq<Subject>)
    ensures SubjectTotal(subjects, []) == 0
  {
    if subjects != [] {
      SubjectTotalEmpty(subjects[1..]);
    }
  }

  /** Adding one record in front adds one for every subject it is stored under. */
  lemma {:induction false} SubjectTotalCons(subjects: seq<Subject>, f: PDFFile, rest: seq<PDFFile>)
    ensures SubjectTotal(subjects, [f] + rest) == SubjectTotal(subjects, rest) + Matches(subjects, f.subject)
  {
    if subjects != [] {
      SubjectTotalCons(subjects[1..], f, rest);
      assert ([f] + rest)[1..] == rest;
    }
  }

  /** A subject string occurs as often as its subject does in the list. */
  lemma {:induction false} MatchesCountsSubject(subjects: seq<Subject>, s: Subject)
    ensures Matches(subjects, SubjectName(s)) == multiset(subjects)[s]
  {
    if subjects != [] {
      MatchesCountsSubject(subjects[1..], s);
      if SubjectName(subjects[0]) == SubjectName(s) {
        SubjectNameInjective(subjects[0], s);
      }
      assert subjects == [subjects[0]] + subjects[1..];
    }
  }

  /** Over a list naming every subject once, a record stored under a subject string is counted once. */
  lemma {:induction false} SubjectTotalOver(subjects: seq<Subject>, files: seq<PDFFile>)
    requires forall s: Subject :: s in subjects
    requires forall i, j :: 0 <= i < j < |subjects| ==> subjects[i] != subjects[j]
    requires forall i :: 0 <= i < |files| ==> IsSubjectName(files[i].subject)
    ensures SubjectTotal(subjects, files) == |files|
  {
    if files == [] {
      SubjectTotalEmpty(subjects);
    } else {
      var f, rest := files[0], files[1..];
      assert forall i :: 0 <= i < |rest| ==> rest[i] == files[i + 1];
      SubjectTotalOver(subjects, rest);
      SubjectTotalCons(subjects, f, rest);
      assert files == [f] + rest;
      var s :| SubjectName(s) == f.subject;
      MatchesCountsSubject(subjects, s);
      DistinctOnce(subjects, s);
    }
  }

  /**
   * When every record carries one of the nine subject strings, the nine
   * badges add up to the `All` badge.
   */
  lemma {:induction false} SubjectCountsSum(files: seq<PDFFile>)
    requires forall i :: 0 <= i < |files| ==> IsSubjectName(files[i].subject)
    ensures SubjectTotal(Subjects, files) == |files|
  {
    var subjects := Subjects;
    SubjectsComplete();
    SubjectTotalOver(subjects, files);
  }

  /** A record whose subject string is none of the nine is counted under `All` only. */
  lemma UnknownSubjectOnlyInAll(files: seq<PDFFile>, f: PDFFile)
    requires f in files && !IsSubjectName(f.subject)
    ensures f in FilterFiles(files, All, "")
    ensures forall s: Subject :: f !in FilterFiles(files, Only(s), "")
  {
    forall s: Subject ensures f !in FilterFiles(files, Only(s), "") {
      FilterCount(SubjectIs(s), files, f);
      assert multiset(FilterFiles(files, Only(s), ""))[f] == 0;
    }
  }

  /** The page's own state: which tab is active. */
  class App {
    var activeSubject: SubjectFilter

    /** The first view is the whole catalog, in listing order. */
    constructor ()
      ensures activeSubject == All
      ensures forall files :: Shown(files) == files
    {
      activeSubject := All;
    }

    /** The list handed to the grid: the catalog filtered by the active tab only. */
    function Shown(files: seq<PDFFile>): seq<PDFFile>
      reads this
    {
      FilterFiles(files, activeSubject, "")
    }

    /** A tab click. */
    method SelectSubject(subject: SubjectFilter)
      modifies this
      ensures activeSubject == subject
    {
      activeSubject := subject;
    }
  }

  /**
   * The list a tab shows holds exactly the catalog's records of that tab,
   * in catalog order, and the tab's badge is its length.
   */
  lemma ShownIsTab(files: seq<PDFFile>, tab: SubjectFilter)
    ensures IsSubsequence(FilterFiles(files, tab, ""), files)
    ensures forall f :: multiset(FilterFiles(files, tab, ""))[f] ==
              if tab.All? || f.subject == SubjectName(tab.subject) then multiset(files)[f] else 0
  {
    FilterFilesSpec(files, tab, "");
    forall f ensures MatchesSearch("", f) {
      EmptyTermMatches(f);
    }
  }
}
