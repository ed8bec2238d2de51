/**
 * The `useFiles` hook: the catalog state (`files`, `loading`, `error`) and
 * the operations that change it. Every storage call is abstracted to the
 * response the bucket gives, passed in as a parameter, and each operation
 * returns the storage requests it made, in order. A mutation never edits
 * `files` itself: on success it refetches the whole listing.
 */
module Catalog {
  import opened Wrappers
  import opened Strings
  import opened Types
  import opened Records
  import opened Sequences

  /** What a failed call throws: an `Error` with a message, or any other value. */
  datatype Thrown = ErrorWithMessage(message: string) | NotAnError

  /** `err instanceof Error ? err.message : fallback` */
  function Message(thrown: Thrown, fallback: string): string {
    match thrown
    case ErrorWithMessage(m) => m
    case NotAnError => fallback
  }

  /** The bucket's answer to an upload, update, remove or download. */
  datatype Response = Ok | Err(thrown: Thrown)

  /** The bucket's answer to a listing. */
  datatype ListResponse = ListOk(entries: seq<RawEntry>) | ListErr(thrown: Thrown)

  /** A call made on the storage bucket. */
  datatype StorageRequest =
    | List(prefix: string, limit: nat, offset: nat)
    | Upload(key: string, displayName: string, subject: string)
    | Update(key: string, displayName: string, subject: string)
    | Remove(keys: seq<string>)
    | Download(key: string)

  /** The listing asks for at most this many objects, from the start of the bucket. */
  const ListLimit: nat := 1000

  const ListAll: StorageRequest := List("", ListLimit, 0)

  /** The key an upload is stored under: the clock reading in decimal, a dash, the file's own name. */
  function UploadKey(stamp: nat, fileName: string): string {
    Decimal(stamp) + "-" + fileName
  }

  /**
   * The key determines the upload: the first dash sits right after the
   * digits of the clock reading, so two keys are equal only for the same
   * clock reading and the same file name.
   */
  lemma UploadKeyInjective(m: nat, x: string, n: nat, y: string)
    requires UploadKey(m, x) == UploadKey(n, y)
    ensures m == n && x == y
  {
    var dm, dn := Decimal(m), Decimal(n);
    var key := UploadKey(m, x);
    assert key == dm + "-" + x && key == dn + "-" + y;
    assert key[|dm|] == '-' && key[|dn|] == '-';
    assert forall i :: 0 <= i < |dm| ==> IsDigit(key[i]);
    assert forall i :: 0 <= i < |dn| ==> IsDigit(key[i]);
    assert |dm| == |dn|;
    assert dm == key[..|dm|] && dn == key[..|dn|];
    DecimalInjective(m, n);
    assert x == key[|dm| + 1..] && y == key[|dn| + 1..];
  }

  /**
   * The listing filter sees an uploaded object exactly when it would see
   * the file's own name: the prefix of digits and a dash never supplies a
   * ".pdf" suffix.
   */
  lemma UploadKeyIsPdfIff(stamp: nat, fileName: string)
    ensures IsPdfName(UploadKey(stamp, fileName)) <==> IsPdfName(fileName)
  {
    var prefix := Decimal(stamp) + "-";
    var key := prefix + fileName;
    LowerAppend(prefix, fileName);
    var lk := Lower(key);
    if |fileName| >= 4 {
      assert lk[|lk| - 4..] == Lower(fileName)[|fileName| - 4..];
    } else if |lk| >= 4 {
      // the window starts inside the prefix, where no character lowers to '.'
      var w := |lk| - 4;
      assert w < |prefix|;
      assert key[w] == prefix[w];
      assert w < |prefix| - 1 ==> IsDigit(Decimal(stamp)[w]);
      assert lk[w] != '.';
      assert lk[w..][0] == lk[w];
    }
  }

  /** Every record a listing produces has a storage key ending in ".pdf", ignoring case. */
  lemma ListedArePdfs(entries: seq<RawEntry>, now: int)
    ensures forall f :: f in Listed(entries, now) ==> IsPdfName(f.filePath)
  {
    var r := Listed(entries, now);
    ListedPaths(entries, now);
    forall f | f in r ensures IsPdfName(f.filePath) {
      var k :| 0 <= k < |r| && r[k] == f;
      assert Map(FilePath, r)[k] == f.filePath;
    }
  }

  /** The hook's state. */
  class FileStore {
    var files: seq<PDFFile>
    var loading: bool
    var error: Option<string>

    /** The entries and the clock of the last successful listing. */
    ghost var synced: seq<RawEntry>
    ghost var syncedAt: int

    /** The catalog is always what the last successful listing produced. */
    ghost predicate Valid()
      reads this
    {
      files == Listed(synced, syncedAt)
    }

    /** Every record held has a storage key ending in ".pdf", ignoring case. */
    predicate OnlyPdfs()
      reads this
    {
      forall f :: f in files ==> IsPdfName(f.filePath)
    }

    /** The initial state: no files, loading, no error. */
    constructor ()
      ensures Valid() && OnlyPdfs()
      ensures files == [] && loading && error == None
    {
      files := [];
      loading := true;
      error := None;
      synced := [];
      syncedAt := 0;
    }

    /**
     * `fetchFiles`: list the bucket and replace the catalog wholesale. A
     * failed listing keeps the previous catalog and records the error.
     * Either way loading ends false; a success leaves an earlier error in place.
     */
    method FetchFiles(response: ListResponse, now: int) returns (requests: seq<StorageRequest>)
      requires Valid()
      modifies this
      ensures Valid() && OnlyPdfs()
      ensures requests == [ListAll]
      ensures !loading
      ensures response.ListOk? ==> files == Listed(response.entries, now) && error == old(error)
      ensures response.ListErr? ==>
        files == old(files) && error == Some(Message(response.thrown, "Failed to fetch files"))
    {
      loading := true;
      requests := [ListAll];
      match response {
        case ListOk(entries) =>
          files := Listed(entries, now);
          synced, syncedAt := entries, now;
        case ListErr(thrown) =>
          error := Some(Message(thrown, "Failed to fetch files"));
      }
      loading := false;
      ListedArePdfs(synced, syncedAt);
    }

    /**
     * `uploadFile`: store the file under a fresh key with its display name
     * and subject as metadata, then refetch. The result is the upload's
     * outcome alone: a refetch that fails still reports success. A failed
     * upload records the error, does not refetch and changes nothing else.
     */
    method UploadFile(file: LocalFile, displayName: string, subject: Subject, stamp: nat,
                      response: Response, refetch: ListResponse, now: int)
      returns (ok: bool, requests: seq<StorageRequest>)
      requires Valid()
      modifies this
      ensures Valid() && OnlyPdfs()
      ensures ok == response.Ok?
      ensures requests ==
        [Upload(UploadKey(stamp, file.name), displayName, SubjectName(subject))] + (if ok then [ListAll] else [])
      ensures ok ==> !loading
      ensures ok && refetch.ListOk? ==> files == Listed(refetch.entries, now) && error == old(error)
      ensures ok && refetch.ListErr? ==>
        files == old(files) && error == Some(Message(refetch.thrown, "Failed to fetch files"))
      ensures !ok ==> files == old(files) && loading == old(loading)
      ensures !ok ==> error == Some(Message(response.thrown, "Failed to upload file"))
    {
      var key := UploadKey(stamp, file.name);
      requests := [Upload(key, displayName, SubjectName(subject))];
      if response.Err? {
        error := Some(Message(response.thrown, "Failed to upload file"));
        ListedArePdfs(synced, syncedAt);
        return false, requests;
      }
      var more := FetchFiles(refetch, now);
      requests := requests + more;
      ok := true;
    }

    /**
     * `renameFile`: rewrite the metadata of exactly `filePath` (the key
     * itself never changes), then refetch. No check on the new name is
     * made here. A failure records the error and leaves the catalog alone.
     */
    method RenameFile(filePath: string, newName: string, newSubject: string,
                      response: Response, refetch: ListResponse, now: int)
      returns (ok: bool, requests: seq<StorageRequest>)
      requires Valid()
      modifies this
      ensures Valid() && OnlyPdfs()
      ensures ok == response.Ok?
      ensures requests == [Update(filePath, newName, newSubject)] + (if ok then [ListAll] else [])
      ensures ok ==> !loading
      ensures ok && refetch.ListOk? ==> files == Listed(refetch.entries, now) && error == old(error)
      ensures ok && refetch.ListErr? ==>
        files == old(files) && error == Some(Message(refetch.thrown, "Failed to fetch files"))
      ensures !ok ==> files == old(files) && loading == old(loading)
      ensures !ok ==> error == Some(Message(response.thrown, "Failed to rename file"))
    {
      requests := [Update(filePath, newName, newSubject)];
      if response.Err? {
        error := Some(Message(response.thrown, "Failed to rename file"));
        ListedArePdfs(synced, syncedAt);
        return false, requests;
      }
      var more := FetchFiles(refetch, now);
      requests := requests + more;
      ok := true;
    }

    /**
     * `deleteFile`: remove the one-element key list `[filePath]`, then
     * refetch. A failure records the error and leaves the catalog alone.
     */
    method DeleteFile(filePath: string, response: Response, refetch: ListResponse, now: int)
      returns (ok: bool, requests: seq<StorageRequest>)
      requires Valid()
      modifies this
      ensures Valid() && OnlyPdfs()
      ensures ok == response.Ok?
      ensures requests == [Remove([filePath])] + (if ok then [ListAll] else [])
      ensures ok ==> !loading
      ensures ok && refetch.ListOk? ==> files == Listed(refetch.entries, now) && error == old(error)
      ensures ok && refetch.ListErr? ==>
        files == old(files) && error == Some(Message(refetch.thrown, "Failed to fetch files"))
      ensures !ok ==> files == old(files) && loading == old(loading)
      ensures !ok ==> error == Some(Message(response.thrown, "Failed to delete file"))
      ensures ok && refetch.ListOk? && filePath !in Map(EntryName, refetch.entries) ==>
        filePath !in Map(FilePath, files)
    {
      requests := [Remove([filePath])];
      if response.Err? {
        error := Some(Message(response.thrown, "Failed to delete file"));
        ListedArePdfs(synced, syncedAt);
        return false, requests;
      }
      var more := FetchFiles(refetch, now);
      if refetch.ListOk? && filePath !in Map(EntryName, refetch.entries) {
        DeletedKeyGone(filePath, refetch.entries, now);
      }
      requests := requests + more;
      ok := true;
    }

    /**
     * `downloadFile`: fetch the object and hand it to the browser to save
     * as the given name plus ".pdf". A failure records the error. The
     * catalog is never touched.
     */
    method DownloadFile(filePath: string, fileName: string, response: Response)
      returns (requests: seq<StorageRequest>, savedAs: Option<string>)
      requires Valid()
      modifies this`error
      ensures Valid() && OnlyPdfs()
      ensures requests == [Download(filePath)]
      ensures response.Ok? ==> savedAs == Some(fileName + ".pdf") && error == old(error)
      ensures response.Err? ==>
        savedAs == None && error == Some(Message(response.thrown, "Failed to download file"))
    {
      requests := [Download(filePath)];
      ListedArePdfs(synced, syncedAt);
      if response.Err? {
        error := Some(Message(response.thrown, "Failed to download file"));
        savedAs := None;
      } else {
        savedAs := Some(fileName + ".pdf");
      }
    }
  }

  /**
   * After a successful delete and a successful refetch, the deleted key is
   * in the catalog only if the bucket still lists it: the catalog holds
   * nothing the listing does not.
   */
  lemma DeletedKeyGone(key: string, entries: seq<RawEntry>, now: int)
    requires key !in Map(EntryName, entries)
    ensures key !in Map(FilePath, Listed(entries, now))
  {
    ListedIff(entries, now, key);
  }
}
