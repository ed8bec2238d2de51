/**
 * How one listing of the storage bucket becomes the catalog: entries whose
 * name does not end in ".pdf" (in any case) are dropped, and every other
 * entry becomes a `PDFFile` whose missing fields take fallbacks.
 */
module Records {
  import opened Wrappers
  import opened Strings
  import opened Sequences
  import opened Types

  /**
   * One object as the storage listing reports it. A field the listing may
   * omit is an `Option`; the metadata fields are the custom `display_name`
   * and `subject` strings written on upload or rename.
   */
  datatype RawEntry = RawEntry(
    id: Option<string>,
    name: string,
    displayName: Option<string>,
    subject: Option<string>,
    size: Option<nat>,
    createdAt: Option<int>,
    updatedAt: Option<int>)

  /** JavaScript's `v || fallback` for a string that may be missing: an empty string is falsy too. */
  function OrElse(v: Option<string>, fallback: string): string {
    if v.Some? && v.value != "" then v.value else fallback
  }

  /** The listing filter: the lower-cased name ends in ".pdf". */
  predicate IsPdfName(name: string) {
    EndsWith(Lower(name), ".pdf")
  }

  predicate IsPdfEntry(e: RawEntry) {
    IsPdfName(e.name)
  }

  /** The record built for one listed entry; `now` stands for the clock read that replaces a missing timestamp. */
  function ToRecord(e: RawEntry, now: int): PDFFile {
    PDFFile(
      id := OrElse(e.id, e.name),
      name := OrElse(e.displayName, RemoveFirst(e.name, ".pdf")),
      originalName := e.name,
      subject := OrElse(e.subject, "Unsorted"),
      size := e.size.GetOr(0),
      createdAt := e.createdAt.GetOr(now),
      updatedAt := e.updatedAt.GetOr(now),
      filePath := e.name)
  }

  /** The catalog a successful listing produces. */
  function Listed(entries: seq<RawEntry>, now: int): seq<PDFFile> {
    Map(e => ToRecord(e, now), Filter(IsPdfEntry, entries))
  }

  function EntryName(e: RawEntry): string { e.name }

  function FilePath(f: PDFFile): string { f.filePath }

  /**
   * The storage keys of the catalog are exactly the listed names that end
   * in ".pdf" ignoring case, in listing order and with their multiplicity.
   */
  lemma ListedPaths(entries: seq<RawEntry>, now: int)
    ensures Map(FilePath, Listed(entries, now)) == Filter(IsPdfName, Map(EntryName, entries))
  {
    var kept := Filter(IsPdfEntry, entries);
    assert Map(FilePath, Listed(entries, now)) == Map(EntryName, kept);
    MapFilter(EntryName, IsPdfName, IsPdfEntry, entries);
  }

  /** A key is in the catalog exactly when the listing has it and it ends in ".pdf" ignoring case. */
  lemma ListedIff(entries: seq<RawEntry>, now: int, key: string)
    ensures key in Map(FilePath, Listed(entries, now)) <==> IsPdfName(key) && key in Map(EntryName, entries)
  {
    var names := Map(EntryName, entries);
    ListedPaths(entries, now);
    FilterCount(IsPdfName, names, key);
    assert (key in Filter(IsPdfName, names)) == (key in multiset(Filter(IsPdfName, names)));
    assert (key in names) == (key in multiset(names));
  }

  /**
   * The fallbacks: the storage key and the original name are the stored
   * name, a missing id is the stored name, a missing subject is "Unsorted"
   * and a present one is taken as it is (it need not be one of the nine),
   * a missing size is 0 and a missing timestamp is the clock. Without a
   * `display_name`, a stored name with no ".pdf" in it is shown as it is.
   */
  lemma RecordDefaults(e: RawEntry, now: int)
    ensures ToRecord(e, now).filePath == e.name && ToRecord(e, now).originalName == e.name
    ensures (e.id.None? || e.id == Some("")) ==> ToRecord(e, now).id == e.name
    ensures e.id.Some? && e.id.value != "" ==> ToRecord(e, now).id == e.id.value
    ensures (e.subject.None? || e.subject == Some("")) ==> ToRecord(e, now).subject == "Unsorted"
    ensures e.subject.Some? && e.subject.value != "" ==> ToRecord(e, now).subject == e.subject.value
    ensures e.size.None? ==> ToRecord(e, now).size == 0
    ensures e.createdAt.None? ==> ToRecord(e, now).createdAt == now
    ensures e.updatedAt.None? ==> ToRecord(e, now).updatedAt == now
    ensures (e.displayName.None? || e.displayName == Some("")) && !Contains(e.name, ".pdf") ==>
      ToRecord(e, now).name == e.name
  {
    ContainsIff(e.name, ".pdf");
    RemoveFirstRestores(e.name, ".pdf");
  }

  /** A non-empty `display_name` in the metadata is the record's name. */
  lemma DisplayNameFromMetadata(e: RawEntry, now: int)
    requires e.displayName.Some? && e.displayName.value != ""
    ensures ToRecord(e, now).name == e.displayName.value
  {
  }

  /** Without a `display_name`, "base.pdf" is shown as "base" when "base" has no ".pdf" of its own. */
  lemma DisplayNameStripsExtension(e: RawEntry, now: int, base: string)
    requires e.displayName.None? || e.displayName == Some("")
    requires e.name == base + ".pdf" && !Contains(base, ".pdf")
    ensures ToRecord(e, now).name == base
    ensures ToRecord(e, now).name + ".pdf" == ToRecord(e, now).filePath
  {
    RemoveExtension(base);
  }

  /**
   * The extension is stripped case-sensitively: "NOTES.PDF" passes the
   * listing filter but, without a `display_name`, keeps its full name.
   */
  lemma UpperCaseExtensionKept(e: RawEntry, now: int)
    requires e.name == "NOTES.PDF" && e.displayName.None?
    ensures IsPdfEntry(e)
    ensures ToRecord(e, now).name == "NOTES.PDF"
  {
    assert Lower(e.name) == "notes.pdf";
    ContainsIff(e.name, ".pdf");
    assert 'p' !in e.name;
    forall i: nat ensures !OccursAt(e.name, ".pdf", i) {
      if i + 4 <= |e.name| {
        assert e.name[i..i + 4][1] == e.name[i + 1] != 'p';
      }
    }
    RecordDefaults(e, now);
  }

  /**
   * A subject string outside the enumeration reaches the catalog
   * unchecked: an entry tagged "Physics" yields a record tagged "Physics".
   */
  lemma UnknownSubjectPassesThrough(e: RawEntry, now: int)
    requires e.subject == Some("Physics")
    ensures ToRecord(e, now).subject == "Physics"
    ensures !IsSubjectName(ToRecord(e, now).subject)
  {
  }
}
