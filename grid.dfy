/**
 * The file grid: the search box and the sort selector over the list it is
 * given, and the rename and delete dialogs that call back into the catalog.
 * A callback's outcome (the boolean the hook resolves to) is a parameter;
 * each handler returns the callback it made, if any.
 */
module Grid {
  import opened Wrappers
  import opened Strings
  import opened Sequences
  import opened Types
  import opened Queries

  /** The list the grid draws: the records whose name contains the search term, sorted by the key. */
  function GridFiles(files: seq<PDFFile>, term: string, key: SortOption): seq<PDFFile> {
    SortFiles(Filter(NameMatches(term), files), key)
  }

  /**
   * The grid shows each record whose name contains the search term (case
   * aside) exactly as often as it is given, none other, in key order, and
   * records the key ties keep the order they were given in.
   */
  lemma GridFilesSpec(files: seq<PDFFile>, term: string, key: SortOption)
    ensures Sorted(key, GridFiles(files, term, key))
    ensures forall f :: multiset(GridFiles(files, term, key))[f] ==
              if MatchesSearch(term, f) then multiset(files)[f] else 0
    ensures forall y :: Filter(TiedWith(key, y), GridFiles(files, term, key)) ==
              Filter(TiedWith(key, y), Filter(NameMatches(term), files))
  {
    var kept := Filter(NameMatches(term), files);
    SortSorted(kept, key);
    SortPermutation(kept, key);
    forall f ensures multiset(GridFiles(files, term, key))[f] ==
                     if MatchesSearch(term, f) then multiset(files)[f] else 0 {
      FilterCount(NameMatches(term), files, f);
    }
    forall y ensures Filter(TiedWith(key, y), GridFiles(files, term, key)) == Filter(TiedWith(key, y), kept) {
      SortStable(kept, key, y);
    }
  }

  /**
   * The page hands the grid the active tab's list; what the grid then shows
   * holds exactly the records of that tab whose name contains the term,
   * the same records the catalog filter selects for the tab and the term together.
   */
  lemma PageView(files: seq<PDFFile>, tab: SubjectFilter, term: string, key: SortOption)
    ensures multiset(GridFiles(FilterFiles(files, tab, ""), term, key)) == multiset(FilterFiles(files, tab, term))
  {
    var shown := FilterFiles(files, tab, "");
    var both := FilterFiles(files, tab, term);
    GridFilesSpec(shown, term, key);
    FilterFilesSpec(files, tab, "");
    FilterFilesSpec(files, tab, term);
    forall f ensures multiset(GridFiles(shown, term, key))[f] == multiset(both)[f] {
      EmptyTermMatches(f);
    }
  }

  /** A callback the grid makes into the catalog. */
  datatype Callback =
    | Rename(filePath: string, newName: string, newSubject: string)
    | Delete(filePath: string)

  /** The grid's own state. */
  class FileGrid {
    var searchTerm: string
    var sortBy: SortOption
    var showRenameModal: bool
    var showDeleteModal: bool
    var selectedFile: Option<PDFFile>
    var newName: string
    var newSubject: string
    var loading: bool

    /** Empty search, newest first, no dialog, nothing selected, subject "Unsorted". */
    constructor ()
      ensures searchTerm == "" && sortBy == ByDate
      ensures !showRenameModal && !showDeleteModal && selectedFile == None
      ensures newName == "" && newSubject == "Unsorted" && !loading
      ensures forall files :: Visible(files) == SortFiles(files, ByDate)
    {
      searchTerm := "";
      sortBy := ByDate;
      showRenameModal := false;
      showDeleteModal := false;
      selectedFile := None;
      newName := "";
      newSubject := "Unsorted";
      loading := false;
      new;
      forall files ensures Visible(files) == SortFiles(files, ByDate) {
        forall f ensures MatchesSearch("", f) {
          EmptyTermMatches(f);
        }
        FilterKeepsAll(NameMatches(""), files);
      }
    }

    /** The list drawn for the given files. */
    function Visible(files: seq<PDFFile>): seq<PDFFile>
      reads this
    {
      GridFiles(files, searchTerm, sortBy)
    }

    /** The rename dialog is drawn only while it is open and a record is selected. */
    predicate RenameDialogShown()
      reads this
    {
      showRenameModal && selectedFile.Some?
    }

    predicate DeleteDialogShown()
      reads this
    {
      showDeleteModal && selectedFile.Some?
    }

    /** The Save button accepts clicks only when idle and the name is not blank. */
    predicate SaveEnabled()
      reads this
    {
      !loading && Trim(newName) != ""
    }

    method SetSearchTerm(term: string)
      modifies this`searchTerm
      ensures searchTerm == term
    {
      searchTerm := term;
    }

    method SetSortBy(key: SortOption)
      modifies this`sortBy
      ensures sortBy == key
    {
      sortBy := key;
    }

    method SetNewName(name: string)
      modifies this`newName
      ensures newName == name
    {
      newName := name;
    }

    /** The subject drop-down offers the nine subjects only. */
    method SetNewSubject(subject: Subject)
      modifies this`newSubject
      ensures newSubject == SubjectName(subject)
    {
      newSubject := SubjectName(subject);
    }

    /** The dialog opens prefilled with the record's current name and subject string. */
    method OpenRenameModal(file: PDFFile)
      modifies this`selectedFile, this`newName, this`newSubject, this`showRenameModal
      ensures selectedFile == Some(file) && newName == file.name && newSubject == file.subject
      ensures showRenameModal && RenameDialogShown()
    {
      selectedFile := Some(file);
      newName := file.name;
      newSubject := file.subject;
      showRenameModal := true;
    }

    method OpenDeleteModal(file: PDFFile)
      modifies this`selectedFile, this`showDeleteModal
      ensures selectedFile == Some(file) && showDeleteModal && DeleteDialogShown()
    {
      selectedFile := Some(file);
      showDeleteModal := true;
    }

    /**
     * `handleRename`: without a selection or with a blank name nothing
     * happens. Otherwise the trimmed name and the chosen subject string go
     * to the catalog for the selected key; on success the dialog closes and
     * its fields reset, on failure they stay as they were. The busy flag is
     * down again afterwards either way.
     */
    method HandleRename(succeeded: bool) returns (call: Option<Callback>)
      modifies this`loading, this`showRenameModal, this`selectedFile, this`newName, this`newSubject
      ensures old(selectedFile).None? || Trim(old(newName)) == "" ==>
        call == None && unchanged(this)
      ensures old(RenameDialogShown() && SaveEnabled()) ==> call.Some?
      ensures old(selectedFile).Some? && Trim(old(newName)) != "" ==>
        call == Some(Rename(old(selectedFile).value.filePath, Trim(old(newName)), old(newSubject))) && !loading
      ensures call.Some? && succeeded ==>
        !showRenameModal && selectedFile == None && newName == "" && newSubject == "Unsorted"
      ensures call.Some? && !succeeded ==>
        showRenameModal == old(showRenameModal) && selectedFile == old(selectedFile) &&
        newName == old(newName) && newSubject == old(newSubject)
      ensures call.Some? ==> var n := call.value.newName;
        n != "" && !IsSpace(n[0]) && !IsSpace(n[|n| - 1]) && IsSubsequence(n, old(newName))
    {
      if selectedFile.None? || Trim(newName) == "" {
        return None;
      }
      loading := true;
      var name := Trim(newName);
      call := Some(Rename(selectedFile.value.filePath, name, newSubject));
      var i, j := TrimSlice(newName);
      SliceIsSubsequence(newName, i, j);
      TrimEdges(newName);
      if succeeded {
        showRenameModal := false;
        selectedFile := None;
        newName := "";
        newSubject := "Unsorted";
      }
      loading := false;
    }

    /**
     * `handleDelete`: without a selection nothing happens; otherwise the
     * selected key goes to the catalog, and on success the dialog closes and
     * the selection clears.
     */
    method HandleDelete(succeeded: bool) returns (call: Option<Callback>)
      modifies this`loading, this`showDeleteModal, this`selectedFile
      ensures old(selectedFile).None? ==> call == None && unchanged(this)
      ensures old(selectedFile).Some? ==> call == Some(Delete(old(selectedFile).value.filePath)) && !loading
      ensures call.Some? && succeeded ==> !showDeleteModal && selectedFile == None
      ensures call.Some? && !succeeded ==>
        showDeleteModal == old(showDeleteModal) && selectedFile == old(selectedFile)
    {
      if selectedFile.None? {
        return None;
      }
      loading := true;
      call := Some(Delete(selectedFile.value.filePath));
      if succeeded {
        showDeleteModal := false;
        selectedFile := None;
      }
      loading := false;
    }

    /** Cancel in the rename dialog: close and deselect; the typed name and subject stay. */
    method CancelRename()
      modifies this`showRenameModal, this`selectedFile
      ensures !showRenameModal && selectedFile == None && !RenameDialogShown()
    {
      showRenameModal := false;
      selectedFile := None;
    }

    method CancelDelete()
      modifies this`showDeleteModal, this`selectedFile
      ensures !showDeleteModal && selectedFile == None && !DeleteDialogShown()
    {
      showDeleteModal := false;
      selectedFile := None;
    }
  }
}
