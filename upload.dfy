/**
 * The upload panel: the drop zone and the file picker choose one PDF-typed
 * file, a dialog collects its display name and subject, and the upload
 * callback into the catalog receives them. The callback's outcome is a
 * parameter; the upload handler returns the callback it made, if any.
 */
module Upload {
  import opened Wrappers
  import opened Strings
  import opened Sequences
  import opened Types
  import opened Records
  import opened Catalog

  /** The MIME type a chosen file must report. */
  const PdfMime: string := "application/pdf"

  predicate IsPdfFile(f: LocalFile) {
    f.mimeType == PdfMime
  }

  /** `files.find(isPdf)`, as the index of the first PDF-typed file at or after `from`. */
  function FirstPdfFrom(files: seq<LocalFile>, from: nat): (r: Option<nat>)
    requires from <= |files|
    ensures r.Some? ==> from <= r.value < |files| && IsPdfFile(files[r.value])
    ensures r.Some? ==> forall k :: from <= k < r.value ==> !IsPdfFile(files[k])
    ensures r.None? ==> forall k :: from <= k < |files| ==> !IsPdfFile(files[k])
    decreases |files| - from
  {
    if from == |files| then None
    else if IsPdfFile(files[from]) then Some(from)
    else FirstPdfFrom(files, from + 1)
  }

  /** The first PDF-typed file of the whole list, if any. */
  function FirstPdf(files: seq<LocalFile>): (r: Option<nat>)
    ensures r.Some? ==> r.value < |files| && IsPdfFile(files[r.value])
    ensures r.Some? ==> forall k :: 0 <= k < r.value ==> !IsPdfFile(files[k])
    ensures r.None? ==> forall k :: 0 <= k < |files| ==> !IsPdfFile(files[k])
  {
    FirstPdfFrom(files, 0)
  }

  /** The dialog's name field starts as the file name with its first ".pdf" removed. */
  function Prefill(fileName: string): string {
    RemoveFirst(fileName, ".pdf")
  }

  /** The upload callback: the file, the trimmed display name and the chosen subject. */
  datatype UploadCall = UploadCall(file: LocalFile, displayName: string, subject: Subject)

  /** The panel's own state. */
  class UploadPanel {
    var isDragging: bool
    var showModal: bool
    var selectedFile: Option<LocalFile>
    var displayName: string
    var selectedSubject: Subject
    var uploading: bool

    /** Only a PDF-typed file is ever held. */
    predicate Valid()
      reads this
    {
      selectedFile.Some? ==> IsPdfFile(selectedFile.value)
    }

    constructor ()
      ensures Valid()
      ensures !isDragging && !showModal && selectedFile == None
      ensures displayName == "" && selectedSubject == Unsorted && !uploading
    {
      isDragging := false;
      showModal := false;
      selectedFile := None;
      displayName := "";
      selectedSubject := Unsorted;
      uploading := false;
    }

    method HandleDragOver()
      modifies this`isDragging
      ensures isDragging
    {
      isDragging := true;
    }

    method HandleDragLeave()
      modifies this`isDragging
      ensures !isDragging
    {
      isDragging := false;
    }

    /**
     * `handleDrop`: the highlight goes off; the first PDF-typed file among
     * the dropped ones, if there is one, is chosen and the dialog opens
     * prefilled. Dropping no PDF-typed file changes nothing else.
     */
    method HandleDrop(files: seq<LocalFile>)
      requires Valid()
      modifies this`isDragging, this`selectedFile, this`displayName, this`showModal
      ensures Valid()
      ensures !isDragging
      ensures FirstPdf(files).None? ==>
        selectedFile == old(selectedFile) && displayName == old(displayName) && showModal == old(showModal)
      ensures FirstPdf(files).Some? ==> var k := FirstPdf(files).value;
        selectedFile == Some(files[k]) && displayName == Prefill(files[k].name) && showModal
    {
      isDragging := false;
      var found := FirstPdf(files);
      if found.Some? {
        var file := files[found.value];
        selectedFile := Some(file);
        displayName := Prefill(file.name);
        showModal := true;
      }
    }

    /**
     * `handleFileSelect`: only the first picked file is looked at; it is
     * chosen when it is PDF-typed, otherwise nothing changes.
     */
    method HandleFileSelect(files: seq<LocalFile>)
      requires Valid()
      modifies this`selectedFile, this`displayName, this`showModal
      ensures Valid()
      ensures files != [] && IsPdfFile(files[0]) ==>
        selectedFile == Some(files[0]) && displayName == Prefill(files[0].name) && showModal
      ensures files == [] || !IsPdfFile(files[0]) ==> unchanged(this)
    {
      if files != [] && IsPdfFile(files[0]) {
        selectedFile := Some(files[0]);
        displayName := Prefill(files[0].name);
        showModal := true;
      }
    }

    method SetDisplayName(name: string)
      modifies this`displayName
      ensures displayName == name
    {
      displayName := name;
    }

    method SetSubject(subject: Subject)
      modifies this`selectedSubject
      ensures selectedSubject == subject
    {
      selectedSubject := subject;
    }

    /**
     * `handleUpload`: without a chosen file or with a blank name nothing
     * happens. Otherwise the file, the trimmed name and the subject go to
     * the catalog; on success the dialog closes and resets, on failure it
     * stays as it was. The busy flag is down again afterwards either way.
     */
    method HandleUpload(succeeded: bool) returns (call: Option<UploadCall>)
      requires Valid()
      modifies this`uploading, this`showModal, this`selectedFile, this`displayName, this`selectedSubject
      ensures Valid()
      ensures old(selectedFile).None? || Trim(old(displayName)) == "" ==> call == None && unchanged(this)
      ensures old(selectedFile).Some? && Trim(old(displayName)) != "" ==>
        call == Some(UploadCall(old(selectedFile).value, Trim(old(displayName)), old(selectedSubject))) && !uploading
      ensures call.Some? ==> IsPdfFile(call.value.file)
      ensures call.Some? ==> var n := call.value.displayName; n != "" && !IsSpace(n[0]) && !IsSpace(n[|n| - 1])
      ensures call.Some? && succeeded ==>
        !showModal && selectedFile == None && displayName == "" && selectedSubject == Unsorted
      ensures call.Some? && !succeeded ==>
        showModal == old(showModal) && selectedFile == old(selectedFile) &&
        displayName == old(displayName) && selectedSubject == old(selectedSubject)
    {
      if selectedFile.None? || Trim(displayName) == "" {
        return None;
      }
      uploading := true;
      call := Some(UploadCall(selectedFile.value, Trim(displayName), selectedSubject));
      TrimEdges(displayName);
      if succeeded {
        showModal := false;
        selectedFile := None;
        displayName := "";
        selectedSubject := Unsorted;
      }
      uploading := false;
    }

    /** `handleCancel`: close and reset the dialog. */
    method HandleCancel()
      requires Valid()
      modifies this`showModal, this`selectedFile, this`displayName, this`selectedSubject
      ensures Valid()
      ensures !showModal && selectedFile == None && displayName == "" && selectedSubject == Unsorted
    {
      showModal := false;
      selectedFile := None;
      displayName := "";
      selectedSubject := Unsorted;
    }
  }

  /**
   * The panel checks the MIME type but the listing checks the name: a file
   * that reports the PDF type under a name without a ".pdf" ending is
   * stored, yet no listing ever shows it, whatever its upload key.
   */
  lemma PdfTypedButUnlisted(file: LocalFile, stamp: nat, entries: seq<RawEntry>, now: int)
    requires IsPdfFile(file) && !IsPdfName(file.name)
    ensures UploadKey(stamp, file.name) !in Map(FilePath, Listed(entries, now))
  {
    UploadKeyIsPdfIff(stamp, file.name);
    ListedIff(entries, now, UploadKey(stamp, file.name));
  }

  /**
   * Given a listing entry under the upload key of a file whose name ends in
   * ".pdf", reporting the metadata the upload wrote, the entry passes the
   * filter and its record has that name, subject and key. That the bucket
   * lists such an entry is the hypothesis, not something the code ensures.
   */
  lemma UploadedRecord(call: UploadCall, stamp: nat, e: RawEntry, now: int)
    requires call.displayName != "" && IsPdfName(call.file.name)
    requires e.name == UploadKey(stamp, call.file.name)
    requires e.displayName == Some(call.displayName) && e.subject == Some(SubjectName(call.subject))
    ensures IsPdfEntry(e)
    ensures ToRecord(e, now).name == call.displayName
    ensures ToRecord(e, now).subject == SubjectName(call.subject)
    ensures ToRecord(e, now).filePath == UploadKey(stamp, call.file.name)
  {
    UploadKeyIsPdfIff(stamp, call.file.name);
  }
}
