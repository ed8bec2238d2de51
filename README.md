# PDF vault: a Dafny model of the catalog and its views

The application keeps PDF files in one storage bucket. Each file carries
two pieces of custom metadata: a display name and one of nine subjects.
This project models the parts of the application that decide what the
user sees and what is sent to the bucket:

- **The `useFiles` hook** (`Catalog.FileStore`). It holds the catalog
  (`files`, `loading`, `error`) and has five operations: list, upload,
  rename, delete and download. A mutation never edits the catalog in place.
  When it succeeds, it re-lists the whole bucket.
- **The listing-to-record step** (`Records`). Entries whose name does not
  end in ".pdf" (in any case) are dropped. Every other entry becomes a
  record, and missing fields take fallbacks.
- **The pure queries** (`Queries`). `filterFiles` filters by subject tab
  and by search term. `sortFiles` sorts by name, date, size or subject.
- **The page** (`Dashboard`). It tracks the active subject tab, the list
  that tab shows and the count badge of each tab.
- **The file grid** (`Grid`). It has a search box and a sort selector, and
  rename and delete dialogs that call back into the hook.
- **The upload panel** (`Upload`). A drop zone and a file picker choose
  one PDF-typed file. A dialog collects its display name and subject.

The bucket is abstracted away. Each storage call's outcome (success, or
the value it throws) is a parameter, and each hook operation returns the
storage requests it made, in order. A component callback's outcome (the
boolean the hook resolves to) is also a parameter. Each handler returns
the callback it made, if any.

Supporting modules:

- **`Strings`** models the JavaScript string built-ins the code relies
  on: `toLowerCase`, `includes`, `endsWith`, `replace` with a string
  pattern (first occurrence only), `trim`, the decimal rendering of
  `Date.now()`, and an ordering standing in for `localeCompare`.
- **`Sequences`** models `filter` and `map`.

Sorting is modelled as a stable insertion sort. `SortFilesIsTheStableSort`
proves that any sorted, stable arrangement equals it, so the result does
not depend on the algorithm the JavaScript engine uses.

Some behaviours of the code are worth knowing. The model follows the
code in each case:

- `renameFile` and `uploadFile` in the hook accept any name. Only the
  dialogs reject a blank one, before calling the hook
  (`Grid.FileGrid.HandleRename`, `Upload.UploadPanel.HandleUpload`).
- A subject string read from the metadata is used as it is, even when it
  is none of the nine (`Records.UnknownSubjectPassesThrough`). Such a
  record is counted only under "All" (`Dashboard.UnknownSubjectOnlyInAll`).
- `error` is never cleared. A later success leaves the last message in
  place.
- `id` falls back to the storage key, and nothing checks that ids are
  unique.
- The upload panel accepts a file by its MIME type, but the listing
  accepts an entry by its name. A PDF-typed file whose name lacks ".pdf"
  is stored but never listed (`Upload.PdfTypedButUnlisted`).

## Model

| member | source | states |
|---|---|---|
| Types.SubjectNameInjective | project/src/types/index.ts:17 | the nine subjects have nine distinct string values |
| Types.SubjectsComplete | project/src/App.tsx:25-35 | the subject list has nine entries, ends with "Unsorted", names every subject and repeats none |
| Strings.Lower | project/src/hooks/useFiles.ts:151-153 | no contract of its own; `toLowerCase` (here and at line 21) as a character-by-character map (ASCII letters only); see `Strings.LowerAppend` and `Records.UpperCaseExtensionKept` |
| Strings.LowerAppend | project/src/hooks/useFiles.ts:21 | lower-casing distributes over concatenation |
| Strings.IndexOfFrom | project/src/hooks/useFiles.ts:151-153 | the result is the first position at or after `i` where the needle occurs, and None exactly when it occurs nowhere from `i` on |
| Strings.ContainsIff | project/src/hooks/useFiles.ts:151-153 | `includes` holds exactly when the needle occurs at some position |
| Strings.Contains | project/src/hooks/useFiles.ts:151-153 | no contract of its own; `includes`: the needle occurs at some position; see `Strings.ContainsIff`, `Strings.IndexOfFrom` |
| Strings.RemoveFirst | project/src/hooks/useFiles.ts:24 | no contract of its own; `replace(t, '')`: the string with the first occurrence of `t` cut out, or unchanged; see `Strings.RemoveFirstRestores` |
| Strings.RemoveFirstRestores | project/src/hooks/useFiles.ts:24 | `replace('.pdf', '')` removes the first occurrence only: with no occurrence the string is unchanged, otherwise putting the needle back at that position restores the input |
| Strings.RemoveExtension | project/src/hooks/useFiles.ts:24 | "base.pdf" becomes "base" when "base" has no ".pdf" of its own |
| Strings.EndsWith | project/src/hooks/useFiles.ts:21 | no contract of its own; `endsWith`: the last characters are the suffix; see `Records.ListedIff`, `Catalog.UploadKeyIsPdfIff` |
| Strings.Trim | project/src/components/FileGrid.tsx:49-52 | no contract of its own; `trim()`: leading then trailing whitespace dropped; see `Strings.TrimBlankIff`, `Strings.TrimSlice`, `Strings.TrimEdges` |
| Strings.TrimBlankIff | project/src/components/FileGrid.tsx:49 | `trim()` is empty exactly when every character is whitespace |
| Strings.TrimSlice | project/src/components/FileGrid.tsx:52 | `trim()` is a contiguous slice of its input |
| Strings.TrimEdges | project/src/components/FileGrid.tsx:52 | a non-empty `trim()` neither starts nor ends with whitespace |
| Strings.Decimal | project/src/hooks/useFiles.ts:43 | the rendering of a clock reading is a non-empty string of digits |
| Strings.DecimalRoundTrip | project/src/hooks/useFiles.ts:43 | reading the decimal rendering back gives the number |
| Strings.DecimalInjective | project/src/hooks/useFiles.ts:43 | different clock readings render differently |
| Strings.Compare | project/src/hooks/useFiles.ts:130 | no contract of its own; `localeCompare` as code-point order; see `Strings.CompareAntisymmetric`, `Strings.CompareTransitive` |
| Strings.CompareAntisymmetric | project/src/hooks/useFiles.ts:130 | swapping the operands of the string comparison flips its sign, and it is zero only for equal strings |
| Strings.CompareTransitive | project/src/hooks/useFiles.ts:130 | the string comparison is transitive |
| Records.IsPdfName | project/src/hooks/useFiles.ts:21 | no contract of its own; the listing filter: the lower-cased name ends in ".pdf"; see `Records.ListedIff`, `Records.UpperCaseExtensionKept` |
| Records.ToRecord | project/src/hooks/useFiles.ts:22-31 | no contract of its own; the field-by-field mapping of one listing entry to a record; see `Records.RecordDefaults`, `Records.DisplayNameFromMetadata`, `Records.DisplayNameStripsExtension`, `Records.UnknownSubjectPassesThrough` |
| Records.Listed | project/src/hooks/useFiles.ts:20-31 | no contract of its own; the entries passing the filter, each mapped to a record; see `Records.ListedPaths`, `Records.ListedIff`, `Catalog.ListedArePdfs` |
| Records.ListedPaths | project/src/hooks/useFiles.ts:20-31 | the catalog's storage keys are the listed names ending in ".pdf" in any case, in listing order, with their multiplicity |
| Records.ListedIff | project/src/hooks/useFiles.ts:20-31 | a key is in the catalog exactly when the listing has it and it ends in ".pdf" ignoring case |
| Records.RecordDefaults | project/src/hooks/useFiles.ts:22-31 | key and original name are the stored name; a missing or empty id or subject falls back to the stored name or "Unsorted"; a missing size is 0; a missing timestamp is the clock; without a display name, a stored name with no ".pdf" in it is shown unchanged |
| Records.DisplayNameFromMetadata | project/src/hooks/useFiles.ts:24 | a non-empty display name in the metadata is the record's name |
| Records.DisplayNameStripsExtension | project/src/hooks/useFiles.ts:24 | without a display name, "base.pdf" is shown as "base", and the shown name plus ".pdf" is the key |
| Records.UpperCaseExtensionKept | project/src/hooks/useFiles.ts:21-24 | "NOTES.PDF" passes the case-blind filter but keeps its full name, because the extension is stripped case-sensitively (an instance of `Records.RecordDefaults`) |
| Records.UnknownSubjectPassesThrough | project/src/hooks/useFiles.ts:26 | a subject string outside the nine, such as "Physics", reaches the record unchanged |
| Queries.EmptyTermMatches | project/src/components/FileGrid.tsx:32 | every name contains the empty search term |
| Queries.MatchesSearch | project/src/components/FileGrid.tsx:32 | no contract of its own; the lower-cased name includes the lower-cased term; see `Queries.EmptyTermMatches`, `Grid.GridFilesSpec` |
| Queries.FilterFiles | project/src/hooks/useFiles.ts:143-157 | no contract of its own; the subject filter unless the tab is "All", then the name filter unless the term is empty; see `Queries.FilterFilesSpec`, `Queries.FilterFilesIsOneFilter`, `Queries.FilterFilesAllIsIdentity` |
| Queries.FilterFilesIsOneFilter | project/src/hooks/useFiles.ts:143-157 | the two optional filters in a row are one filter by "subject matches and name contains the term" |
| Queries.FilterFilesSpec | project/src/hooks/useFiles.ts:143-157 | the result keeps catalog order, holds only selected records, and holds each selected record as often as the catalog does |
| Queries.FilterFilesAllIsIdentity | project/src/hooks/useFiles.ts:143-157 | tab "All" with no term returns the catalog unchanged |
| Queries.CompareBy | project/src/hooks/useFiles.ts:128-139 | no contract of its own; the comparator for each key; see `Queries.CompareByFlip`, `Queries.PrecedesTransitive`, `Queries.TiedTransitive`, `Queries.SortOrder` |
| Queries.SortFiles | project/src/hooks/useFiles.ts:126-141 | no contract of its own; a stable sort by the comparator, as insertion into the sorted rest; see `Queries.SortPermutation`, `Queries.SortSorted`, `Queries.SortStable`, `Queries.SortFilesIsTheStableSort` |
| Queries.CompareByFlip | project/src/hooks/useFiles.ts:128-139 | every comparator is antisymmetric |
| Queries.PrecedesTransitive | project/src/hooks/useFiles.ts:128-139 | "sorts no later than" is transitive for every key |
| Queries.TiedTransitive | project/src/hooks/useFiles.ts:128-139 | being tied is transitive for every key |
| Queries.SortPermutation | project/src/hooks/useFiles.ts:126-127 | sorting returns a permutation of its input |
| Queries.InsertSorted | project/src/hooks/useFiles.ts:127-140 | inserting a record into a sorted list keeps it sorted |
| Queries.SortSorted | project/src/hooks/useFiles.ts:126-141 | the result is sorted by the key's comparator |
| Queries.SortStable | project/src/hooks/useFiles.ts:126-141 | records the key ties keep their input order |
| Queries.SortedIsFixed | project/src/hooks/useFiles.ts:126-141 | an already sorted list is returned unchanged |
| Queries.SortIdempotent | project/src/hooks/useFiles.ts:126-141 | sorting twice is sorting once |
| Queries.SortedStableUnique | project/src/hooks/useFiles.ts:127-140 | two sorted lists with the same tie classes in the same order are equal |
| Queries.SortFilesIsTheStableSort | project/src/hooks/useFiles.ts:126-141 | any sorted arrangement that keeps every tie class in input order is the sort's result |
| Queries.SortOrder | project/src/hooks/useFiles.ts:128-136 | by date: newest first; by size: largest first; by name and by subject: ascending string order |
| Catalog.Message | project/src/hooks/useFiles.ts:35 | no contract of its own; `err instanceof Error ? err.message : fallback`, here and at lines 61, 84, 100 and 122; see the failure clauses of the `Catalog.FileStore` methods |
| Catalog.UploadKey | project/src/hooks/useFiles.ts:43 | no contract of its own; `${Date.now()}-${file.name}`; see `Catalog.UploadKeyInjective`, `Catalog.UploadKeyIsPdfIff` |
| Catalog.UploadKeyInjective | project/src/hooks/useFiles.ts:43 | two upload keys are equal only for the same clock reading and the same file name, so uploads at different readings or of different names never share a key |
| Catalog.UploadKeyIsPdfIff | project/src/hooks/useFiles.ts:43 | the upload key passes the listing filter exactly when the file's own name does |
| Catalog.ListedArePdfs | project/src/hooks/useFiles.ts:20-21 | every record a listing produces has a key ending in ".pdf", ignoring case |
| Catalog.FileStore.constructor | project/src/hooks/useFiles.ts:6-8 | starts with no files, loading, no error; from here on, every method keeps the catalog equal to the last successful listing, so every held record has a ".pdf" key |
| Catalog.FileStore.FetchFiles | project/src/hooks/useFiles.ts:10-39 | one listing of at most 1000 entries from offset 0; success replaces the catalog wholesale; failure keeps it and records the message or "Failed to fetch files"; loading ends false |
| Catalog.FileStore.UploadFile | project/src/hooks/useFiles.ts:41-64 | uploads under "stamp-name" with display name and subject; success re-lists and reports true even if the re-listing fails; failure records the message or "Failed to upload file", does not re-list and changes nothing else |
| Catalog.FileStore.RenameFile | project/src/hooks/useFiles.ts:66-87 | rewrites the metadata of exactly that key, with no check on the name, then re-lists; failure records the message or "Failed to rename file" |
| Catalog.FileStore.DeleteFile | project/src/hooks/useFiles.ts:89-103 | removes the one-key list, then re-lists; failure records the message or "Failed to delete file"; after a successful delete, a re-listing that no longer has the key leaves it out of the catalog |
| Catalog.FileStore.DownloadFile | project/src/hooks/useFiles.ts:105-124 | downloads the key and saves it as the given name plus ".pdf"; failure records the message or "Failed to download file"; the catalog is untouched |
| Catalog.DeletedKeyGone | project/src/hooks/useFiles.ts:93-97 | once the bucket no longer lists a key, the re-listed catalog does not hold it |
| Dashboard.FileCounts | project/src/App.tsx:41-49 | every tab has a badge: "All" counts the catalog, and each tab's badge is the length of the list that tab shows |
| Dashboard.SubjectCountsSum | project/src/App.tsx:41-49 | when every record carries one of the nine subject strings, the nine badges add up to the "All" badge |
| Dashboard.UnknownSubjectOnlyInAll | project/src/App.tsx:44-46 | a record with an unknown subject string shows under "All" and under no subject tab |
| Dashboard.ShownIsTab | project/src/App.tsx:37-39 | a tab shows exactly the catalog's records of that tab, in catalog order |
| Dashboard.App.Shown | project/src/App.tsx:37-39 | no contract of its own; `filterFiles(activeSubject, '')`; see `Dashboard.ShownIsTab`, `Dashboard.App.constructor` |
| Dashboard.App.constructor | project/src/App.tsx:23 | the first tab is "All", which shows the whole catalog |
| Dashboard.App.SelectSubject | project/src/App.tsx:76 | a tab click makes that tab active |
| Grid.GridFilesSpec | project/src/components/FileGrid.tsx:31-46 | the grid shows each record whose name contains the term (case aside) as often as it is given, in key order, with ties in given order |
| Grid.GridFiles | project/src/components/FileGrid.tsx:31-46 | no contract of its own; the name filter, then the sort; see `Grid.GridFilesSpec`, `Grid.PageView` |
| Grid.PageView | project/src/App.tsx:90-91 | the grid, given the active tab's list, shows the same records the catalog filter selects for that tab and the term together |
| Grid.FileGrid.constructor | project/src/components/FileGrid.tsx:19-27 | empty search, newest first, no dialog, no selection, subject "Unsorted", idle |
| Grid.FileGrid.SaveEnabled | project/src/components/FileGrid.tsx:284 | no contract of its own; Save is disabled while loading or while the trimmed new name is empty; see `Grid.FileGrid.HandleRename` |
| Grid.FileGrid.SetSearchTerm | project/src/components/FileGrid.tsx:98 | typing sets the search term and nothing else |
| Grid.FileGrid.SetSortBy | project/src/components/FileGrid.tsx:106 | choosing a key sets it and nothing else |
| Grid.FileGrid.SetNewName | project/src/components/FileGrid.tsx:249 | typing in the rename dialog sets the new name |
| Grid.FileGrid.SetNewSubject | project/src/components/FileGrid.tsx:260-266 | the subject drop-down sets one of the nine subject strings |
| Grid.FileGrid.OpenRenameModal | project/src/components/FileGrid.tsx:76-81 | selects the record and opens the dialog, prefilled with its name and subject string |
| Grid.FileGrid.OpenDeleteModal | project/src/components/FileGrid.tsx:83-86 | selects the record and opens the confirmation |
| Grid.FileGrid.HandleRename | project/src/components/FileGrid.tsx:48-61 | no selection or a blank name changes nothing and calls nothing; otherwise the key, the trimmed name and the subject are sent; success closes and resets the dialog, failure keeps it; the sent name is non-blank with no surrounding whitespace |
| Grid.FileGrid.HandleDelete | project/src/components/FileGrid.tsx:63-74 | no selection changes nothing; otherwise the selected key is sent; success closes the dialog and clears the selection |
| Grid.FileGrid.CancelRename | project/src/components/FileGrid.tsx:273-276 | closes the dialog and clears the selection, keeping the typed name and subject |
| Grid.FileGrid.CancelDelete | project/src/components/FileGrid.tsx:305-308 | closes the confirmation and clears the selection |
| Upload.FirstPdfFrom | project/src/components/UploadSection.tsx:35 | the index of the first PDF-typed file, or None when there is none |
| Upload.FirstPdf | project/src/components/UploadSection.tsx:35 | `find` over the dropped files: the index of the first PDF-typed one, or None when none is |
| Upload.IsPdfFile | project/src/components/UploadSection.tsx:35 | no contract of its own; the file reports the MIME type "application/pdf", here and at line 46; see `Upload.FirstPdf`, `Upload.PdfTypedButUnlisted` |
| Upload.Prefill | project/src/components/UploadSection.tsx:39 | no contract of its own; the file name with its first ".pdf" cut out, here and at line 48; see `Strings.RemoveFirstRestores`, `Strings.RemoveExtension` |
| Upload.UploadPanel.constructor | project/src/components/UploadSection.tsx:11-16 | no highlight, no dialog, no file, empty name, subject Unsorted, idle |
| Upload.UploadPanel.HandleDragOver | project/src/components/UploadSection.tsx:20-23 | the drop zone highlights |
| Upload.UploadPanel.HandleDragLeave | project/src/components/UploadSection.tsx:25-28 | the highlight goes off |
| Upload.UploadPanel.HandleDrop | project/src/components/UploadSection.tsx:30-42 | the highlight goes off; the first PDF-typed dropped file is chosen with its name minus the first ".pdf" and the dialog opens; with none, nothing else changes |
| Upload.UploadPanel.HandleFileSelect | project/src/components/UploadSection.tsx:44-51 | only the first picked file is considered; it is chosen when PDF-typed, otherwise nothing changes |
| Upload.UploadPanel.SetDisplayName | project/src/components/UploadSection.tsx:129 | typing sets the display name |
| Upload.UploadPanel.SetSubject | project/src/components/UploadSection.tsx:141 | the drop-down sets the subject |
| Upload.UploadPanel.HandleUpload | project/src/components/UploadSection.tsx:53-66 | no file or a blank name changes nothing; otherwise the PDF-typed file, the trimmed non-blank name and the subject are sent; success closes and resets the dialog, failure keeps it |
| Upload.UploadPanel.HandleCancel | project/src/components/UploadSection.tsx:68-73 | closes and resets the dialog |
| Upload.PdfTypedButUnlisted | project/src/hooks/useFiles.ts:21 | a PDF-typed file whose name lacks ".pdf" is never listed, whatever its upload key |
| Upload.UploadedRecord | project/src/hooks/useFiles.ts:43-54 | given a listing entry under the upload key of a ".pdf" file that reports the metadata the upload wrote, the entry passes the filter and its record has that display name, subject and key; that the bucket lists such an entry is a hypothesis |

## Left out

- The storage bucket itself is not modelled. Each outcome of list, upload,
  update, remove and download is a parameter, and the metadata a later
  listing reports is an input.
- `RenameFile` sends an empty blob as the new content. The `Update`
  request records only the key and the metadata, not that empty body.
  The size and bytes that later listings and downloads report are inputs,
  so the model says nothing about whether a file's content survives a
  rename.
- The download's browser steps (object URL, temporary link, click,
  revoke) are not modelled. `DownloadFile` returns the name the file is
  saved under instead.
- The grid's download button passes the record's key and name straight
  to the hook. No grid handler is modelled for it.
- `created_at` and `updated_at` are ISO strings in the source, parsed with
  `new Date`. The model uses integer milliseconds. An unparsable date,
  which makes the comparator return NaN, is not modelled.
- Missing timestamps use the clock, passed as `now`. `Date.now()` for the
  upload key is the parameter `stamp`.
- Records.ToRecord: one clock reading, `now`, stands for every fallback
  read of `created_at` and `updated_at` in a listing. The source reads the
  clock separately for each (useFiles.ts:28-29). So in the model, records
  without `created_at` always tie under the date sort and keep listing
  order. In the source, a later read may be newer and sort first.
- `toLowerCase` is modelled on ASCII letters only. Other letters are left
  unchanged.
- `localeCompare` is modelled as code-point order (`Strings.Compare`).
  Locale collation rules are not modelled.
- `Strings.Compare`: does not model that `localeCompare` may tie distinct
  strings. In the model, only equal strings tie.
- The comparator's `default` branch returns 0. It cannot be reached
  because `SortOption` is closed.
- The 1000-entry listing limit is recorded in the request. Pagination
  beyond it is not modelled (the code does none).
- A listing that returns neither data nor an error is not modelled.
- `err.message` is modelled as any string, including an empty one.
- The App's rendering of `error` is not modelled: an empty message is
  not shown.
- React scheduling, batching and concurrent handlers are not modelled.
  Each handler runs to completion before the next one starts.
- While any listing is in flight, the page shows a spinner instead of the
  panels (App.tsx:51-62). Unmounting them would discard their state. The
  model keeps the component states independent of `loading`.
- The grid/list view mode, and all markup and styling, are rendering only.
- Header, About, Layout and SubjectTabs are presentational and are not
  modelled. `formatFileSize` and `formatDate` are display formatting and
  are not modelled.
- The mount effect that calls `fetchFiles` once is a single call to
  `FetchFiles` after the constructor.
