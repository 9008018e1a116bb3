/** The image processing service: upload validation, the file names it
    derives for a processed upload, and the deletion of stored files. The
    storage directory is a map from stored file to its bytes. */
module ImageService {
  import opened Options
  import Text
  import Uuids
  import opened Protocol

  /** `MAX_FILE_SIZE`: 5 MiB. */
  const MaxFileSize: nat := 5 * 1024 * 1024

  /** `ALLOWED_EXTENSIONS`. */
  const AllowedExtensions: set<string> := {".jpg", ".jpeg", ".png", ".webp"}

  /** The values `type` may take in a delete request. */
  const DeleteKinds: seq<string> := ["original", "processed", "both"]

  /** `order` lists every allowed extension exactly once: the order in which
      this process iterates over the `ALLOWED_EXTENSIONS` set. */
  predicate IsEnumeration(order: seq<string>) {
    (forall i :: 0 <= i < |order| ==> order[i] in AllowedExtensions)
    && (forall e :: e in AllowedExtensions ==> e in order)
    && (forall i, j :: 0 <= i < j < |order| ==> order[i] != order[j])
  }

  /** `validate_image_file`: an error message, or None when the upload has a
      name whose lower-cased suffix is allowed. */
  function ValidateImageFile(filename: Option<string>, order: seq<string>): (r: Option<string>)
    ensures r.None? <==> filename.Some? && filename.value != "" && Text.Lower(Text.Suffix(filename.value)) in AllowedExtensions
    ensures filename.None? || filename.value == "" ==> r == Some("No filename provided")
  {
    if filename.None? || filename.value == "" then Some("No filename provided")
    else if Text.Lower(Text.Suffix(filename.value)) !in AllowedExtensions then
      Some("Invalid file type. Allowed: " + Text.Join(", ", order))
    else None
  }

  datatype Area = Original | Processed

  /** A file under `STORAGE_PATH`: its directory and its name. */
  datatype StoredFile = StoredFile(area: Area, name: string)

  /** The path of a stored file relative to `STORAGE_PATH`, as the `deleted`
      list and the `/storage` URLs spell it. */
  function RelativePath(f: StoredFile): string {
    (if f.area == Original then "original/" else "processed/") + f.name
  }

  function StorageUrl(baseUrl: string, f: StoredFile): string {
    baseUrl + "/storage/" + RelativePath(f)
  }

  /** The name the original is stored under: the file id and the lower-cased suffix. */
  function OriginalName(fileId: Uuids.Uuid, filename: string): string {
    Uuids.Format(fileId) + Text.Lower(Text.Suffix(filename))
  }

  /** The name the processed image is stored under. */
  function ProcessedName(fileId: Uuids.Uuid): string {
    Uuids.Format(fileId) + ".png"
  }

  /** The background removal and PNG encoding: the PNG bytes written, or the
      text of the exception raised. */
  datatype Removal = Removed(png: seq<bv8>) | RemovalFailed(detail: string)

  /** A `/images/process` response. */
  datatype ProcessResponse =
    | ProcessOk(data: ImageData)
    | ProcessError(status: int, code: string, message: string)

  /** The response `process_image` gives. */
  function ProcessReplyFor(baseUrl: string, order: seq<string>, filename: Option<string>, content: seq<bv8>,
                           fileId: Uuids.Uuid, removal: Removal): ProcessResponse
  {
    match ValidateImageFile(filename, order)
    case Some(error) => ProcessError(400, "INVALID_FILE_TYPE", error)
    case None =>
      if |content| > MaxFileSize then ProcessError(400, "FILE_TOO_LARGE", "File exceeds maximum size of 5MB")
      else match removal
        case RemovalFailed(detail) => ProcessError(500, "PROCESSING_FAILED", "Failed to process image: " + detail)
        case Removed(png) =>
          ProcessOk(ImageData(
            StorageUrl(baseUrl, StoredFile(Original, OriginalName(fileId, filename.value))),
            StorageUrl(baseUrl, StoredFile(Processed, ProcessedName(fileId))),
            ProcessedName(fileId),
            |png|))
  }

  /** The storage directory after `process_image`. */
  function FilesAfterProcess(files: map<StoredFile, seq<bv8>>, filename: Option<string>, content: seq<bv8>,
                             fileId: Uuids.Uuid, removal: Removal): map<StoredFile, seq<bv8>>
  {
    if ValidateImageFile(filename, []).Some? || |content| > MaxFileSize then files
    else
      var withOriginal := files[StoredFile(Original, OriginalName(fileId, filename.value)) := content];
      match removal
      case RemovalFailed(_) => withOriginal
      case Removed(png) => withOriginal[StoredFile(Processed, ProcessedName(fileId)) := png]
  }

  /** The progress of a delete request: the directory, and the `deleted_files`
      and `errors` lists so far. */
  datatype Sweep = Sweep(files: map<StoredFile, seq<bv8>>, deleted: seq<string>, errors: seq<string>)

  /** The first extension, in iteration order, under which an original named
      `stem` exists. */
  function FirstOriginal(files: map<StoredFile, seq<bv8>>, stem: string, order: seq<string>): Option<string>
    decreases |order|
  {
    if order == [] then None
    else if StoredFile(Original, stem + order[0]) in files then Some(order[0])
    else FirstOriginal(files, stem, order[1..])
  }

  /** The search stops at the first extension whose original exists, and finds
      nothing only when no extension has one. */
  lemma {:induction false} FirstOriginalFinds(files: map<StoredFile, seq<bv8>>, stem: string, order: seq<string>)
    ensures FirstOriginal(files, stem, order).Some? ==>
              exists i :: 0 <= i < |order| && order[i] == FirstOriginal(files, stem, order).value
                && StoredFile(Original, stem + order[i]) in files
                && forall j :: 0 <= j < i ==> StoredFile(Original, stem + order[j]) !in files
    ensures FirstOriginal(files, stem, order).None? <==>
              forall i :: 0 <= i < |order| ==> StoredFile(Original, stem + order[i]) !in files
    decreases |order|
  {
    if order != [] && StoredFile(Original, stem + order[0]) !in files {
      var r := FirstOriginal(files, stem, order[1..]);
      FirstOriginalFinds(files, stem, order[1..]);
      if r.Some? {
        var k :| 0 <= k < |order[1..]| && order[1..][k] == r.value
                 && StoredFile(Original, stem + order[1..][k]) in files
                 && forall j :: 0 <= j < k ==> StoredFile(Original, stem + order[1..][j]) !in files;
        assert order[k + 1] == r.value;
        forall j | 0 <= j < k + 1 ensures StoredFile(Original, stem + order[j]) !in files {
          if j > 0 { assert order[j] == order[1..][j - 1]; }
        }
      } else {
        forall i | 0 <= i < |order| ensures StoredFile(Original, stem + order[i]) !in files {
          if i > 0 { assert order[i] == order[1..][i - 1]; }
        }
      }
    } else if order != [] {
      assert order[0] == FirstOriginal(files, stem, order).value;
    }
  }

  /** Unlinking one existing file: it goes and is listed as deleted, unless
      unlinking it raises (`faulty` holds the exception text), in which case
      it stays and `failure` followed by that text is listed. */
  function Unlink(s: Sweep, f: StoredFile, failure: string, faulty: map<StoredFile, string>): Sweep {
    if f in faulty then Sweep(s.files, s.deleted, s.errors + [failure + faulty[f]])
    else Sweep(s.files - {f}, s.deleted + [RelativePath(f)], s.errors)
  }

  /** The `original`/`both` step: at most one original, the first found. */
  function SweepOriginal(s: Sweep, stem: string, order: seq<string>, faulty: map<StoredFile, string>): Sweep {
    match FirstOriginal(s.files, stem, order)
    case None => s
    case Some(ext) => Unlink(s, StoredFile(Original, stem + ext), "Failed to delete original: ", faulty)
  }

  /** The `processed`/`both` step: only `stem.png`. */
  function SweepProcessed(s: Sweep, stem: string, faulty: map<StoredFile, string>): Sweep {
    var f := StoredFile(Processed, stem + ".png");
    if f in s.files then Unlink(s, f, "Failed to delete processed: ", faulty) else s
  }

  /** `type in ["original", "both"]`. */
  predicate TouchesOriginal(kind: string) {
    kind == "original" || kind == "both"
  }

  /** `type in ["processed", "both"]`. */
  predicate TouchesProcessed(kind: string) {
    kind == "processed" || kind == "both"
  }

  /** Both steps of a delete request whose `type` is valid. */
  function DeleteSweep(files: map<StoredFile, seq<bv8>>, filename: string, kind: string, order: seq<string>,
                       faulty: map<StoredFile, string>): Sweep
  {
    var stem := Text.Stem(filename);
    var s0 := Sweep(files, [], []);
    var s1 := if TouchesOriginal(kind) then SweepOriginal(s0, stem, order, faulty) else s0;
    if TouchesProcessed(kind) then SweepProcessed(s1, stem, faulty) else s1
  }

  /** A `DELETE /images/{filename}` response. */
  datatype DeleteResponse =
    | DeleteOk(deleted: seq<string>)
    | DeleteError(status: int, code: string, message: string)

  /** The response `delete_image` gives. */
  function DeleteReplyFor(files: map<StoredFile, seq<bv8>>, filename: string, kind: string, order: seq<string>,
                          faulty: map<StoredFile, string>): DeleteResponse
  {
    if kind !in DeleteKinds then DeleteError(400, "INVALID_INPUT", "Type must be 'original', 'processed', or 'both'")
    else
      var s := DeleteSweep(files, filename, kind, order, faulty);
      if s.errors != [] && s.deleted == [] then DeleteError(500, "SERVER_ERROR", Text.Join("; ", s.errors))
      else DeleteOk(s.deleted)
  }

  /** The storage directory after `delete_image`. */
  function FilesAfterDelete(files: map<StoredFile, seq<bv8>>, filename: string, kind: string, order: seq<string>,
                            faulty: map<StoredFile, string>): map<StoredFile, seq<bv8>>
  {
    if kind !in DeleteKinds then files else DeleteSweep(files, filename, kind, order, faulty).files
  }

  /** The storage directory, with the service's configuration. */
  class Storage {
    var files: map<StoredFile, seq<bv8>>
    /** `BASE_URL`. */
    const baseUrl: string
    /** The iteration order of `ALLOWED_EXTENSIONS` in this process. */
    const extensionOrder: seq<string>

    predicate Valid() {
      IsEnumeration(extensionOrder)
    }

    constructor (baseUrl: string, extensionOrder: seq<string>, files: map<StoredFile, seq<bv8>>)
      requires IsEnumeration(extensionOrder)
      ensures Valid()
      ensures this.baseUrl == baseUrl && this.extensionOrder == extensionOrder && this.files == files
    {
      this.baseUrl := baseUrl;
      this.extensionOrder := extensionOrder;
      this.files := files;
    }

    /** `process_image`: validate, bound the size, store the original, then
        store the background-free PNG. */
    method ProcessImage(filename: Option<string>, content: seq<bv8>, fileId: Uuids.Uuid, removal: Removal)
      returns (r: ProcessResponse)
      requires Valid()
      modifies this
      ensures r == ProcessReplyFor(baseUrl, extensionOrder, filename, content, fileId, removal)
      ensures files == FilesAfterProcess(old(files), filename, content, fileId, removal)
    {
      var error := ValidateImageFile(filename, extensionOrder);
      if error.Some? {
        return ProcessError(400, "INVALID_FILE_TYPE", error.value);
      }
      if |content| > MaxFileSize {
        return ProcessError(400, "FILE_TOO_LARGE", "File exceeds maximum size of 5MB");
      }
      var originalName := OriginalName(fileId, filename.value);
      var processedName := ProcessedName(fileId);
      files := files[StoredFile(Original, originalName) := content];
      match removal {
        case RemovalFailed(detail) =>
          return ProcessError(500, "PROCESSING_FAILED", "Failed to process image: " + detail);
        case Removed(png) =>
          files := files[StoredFile(Processed, processedName) := png];
          var processedSize := |png|;
          r := ProcessOk(ImageData(
            StorageUrl(baseUrl, StoredFile(Original, originalName)),
            StorageUrl(baseUrl, StoredFile(Processed, processedName)),
            processedName,
            processedSize));
      }
    }

    /** `delete_image`: remove the original and/or the processed file named
        after the stem of `filename`. */
    method DeleteImage(filename: string, kind: string, faulty: map<StoredFile, string>) returns (r: DeleteResponse)
      requires Valid()
      modifies this
      ensures r == DeleteReplyFor(old(files), filename, kind, extensionOrder, faulty)
      ensures files == FilesAfterDelete(old(files), filename, kind, extensionOrder, faulty)
    {
      if kind !in DeleteKinds {
        return DeleteError(400, "INVALID_INPUT", "Type must be 'original', 'processed', or 'both'");
      }
      var deleted: seq<string> := [];
      var errors: seq<string> := [];
      var stem := Text.Stem(filename);
      if TouchesOriginal(kind) {
        deleted, errors := DeleteOriginal(stem, faulty);
      }
      if TouchesProcessed(kind) {
        deleted, errors := DeleteProcessed(stem, faulty, deleted, errors);
      }
      if errors != [] && deleted == [] {
        r := DeleteError(500, "SERVER_ERROR", Text.Join("; ", errors));
      } else {
        r := DeleteOk(deleted);
      }
    }

    /** The `type in ["original", "both"]` step: try each allowed extension
        in turn and unlink the first original that exists. */
    method DeleteOriginal(stem: string, faulty: map<StoredFile, string>) returns (deleted: seq<string>, errors: seq<string>)
      modifies this
      ensures Sweep(files, deleted, errors) == SweepOriginal(Sweep(old(files), [], []), stem, extensionOrder, faulty)
    {
      deleted, errors := [], [];
      var i := 0;
      while i < |extensionOrder|
        invariant 0 <= i <= |extensionOrder|
        invariant files == old(files)
        invariant FirstOriginal(files, stem, extensionOrder) == FirstOriginal(files, stem, extensionOrder[i..])
      {
        var path := StoredFile(Original, stem + extensionOrder[i]);
        if path in files {
          if path in faulty {
            errors := errors + ["Failed to delete original: " + faulty[path]];
          } else {
            files := files - {path};
            deleted := deleted + [RelativePath(path)];
          }
          break;
        }
        assert extensionOrder[i..][1..] == extensionOrder[i + 1..];
        i := i + 1;
      }
    }

    /** The `type in ["processed", "both"]` step: unlink `{stem}.png` if it
        exists, adding to the lists so far. */
    method DeleteProcessed(stem: string, faulty: map<StoredFile, string>, deleted0: seq<string>, errors0: seq<string>)
      returns (deleted: seq<string>, errors: seq<string>)
      modifies this
      ensures Sweep(files, deleted, errors) == SweepProcessed(Sweep(old(files), deleted0, errors0), stem, faulty)
    {
      deleted, errors := deleted0, errors0;
      var path := StoredFile(Processed, stem + ".png");
      if path in files {
        if path in faulty {
          errors := errors + ["Failed to delete processed: " + faulty[path]];
        } else {
          files := files - {path};
          deleted := deleted + [RelativePath(path)];
        }
      }
    }
  }
}

/** Properties of the image service's behaviour. */
module ImageServiceFacts {
  import opened Options
  import Text
  import Uuids
  import opened Protocol
  import opened ImageService

  /** An allowed extension is a dot followed by letters. */
  lemma AllowedExtensionShape(ext: string)
    requires ext in AllowedExtensions
    ensures |ext| >= 2 && ext[0] == '.'
    ensures forall i :: 1 <= i < |ext| ==> 'a' <= ext[i] <= 'z'
  {
  }

  /** Stored names split back into the file id and the extension. */
  lemma StoredNamesSplit(fileId: Uuids.Uuid, ext: string)
    requires ext in AllowedExtensions
    ensures Text.Stem(Uuids.Format(fileId) + ext) == Uuids.Format(fileId)
    ensures Text.Suffix(Uuids.Format(fileId) + ext) == ext
  {
    var id := Uuids.Format(fileId);
    Uuids.FormatShape(fileId);
    assert forall i :: 0 <= i < |id| ==> id[i] != '.' && id[i] != '/';
    AllowedExtensionShape(ext);
    Text.StemOfPlainName(id, ext);
  }

  /** The size bound: an acceptable upload is refused as too large exactly when
      it is longer than 5 MiB, so one of exactly 5 MiB passes; a refused
      upload leaves the directory unchanged. */
  lemma ProcessSizeBound(baseUrl: string, order: seq<string>, files: map<StoredFile, seq<bv8>>,
                         filename: Option<string>, content: seq<bv8>, fileId: Uuids.Uuid, removal: Removal)
    requires ValidateImageFile(filename, order).None?
    ensures ProcessReplyFor(baseUrl, order, filename, content, fileId, removal).ProcessError?
              && ProcessReplyFor(baseUrl, order, filename, content, fileId, removal).code == "FILE_TOO_LARGE"
            <==> |content| > 5 * 1024 * 1024
    ensures |content| > 5 * 1024 * 1024 ==> FilesAfterProcess(files, filename, content, fileId, removal) == files
  {
  }

  /** A refused file type or a missing name changes nothing and is reported as
      `INVALID_FILE_TYPE`. */
  lemma ProcessRejectsInvalidFile(baseUrl: string, order: seq<string>, files: map<StoredFile, seq<bv8>>,
                                  filename: Option<string>, content: seq<bv8>, fileId: Uuids.Uuid, removal: Removal)
    requires filename.None? || filename.value == "" || Text.Lower(Text.Suffix(filename.value)) !in AllowedExtensions
    ensures ProcessReplyFor(baseUrl, order, filename, content, fileId, removal).ProcessError?
    ensures ProcessReplyFor(baseUrl, order, filename, content, fileId, removal).status == 400
    ensures ProcessReplyFor(baseUrl, order, filename, content, fileId, removal).code == "INVALID_FILE_TYPE"
    ensures FilesAfterProcess(files, filename, content, fileId, removal) == files
  {
  }

  /** A processed upload: the original is stored under `{id}{ext}` with the
      uploaded bytes, the PNG under `{id}.png`; the reply names the PNG as
      `file_name`, reports its size, and gives the `/storage` URL of each
      file. Both stored names have the file id as their stem. */
  lemma ProcessStoresPair(baseUrl: string, order: seq<string>, files: map<StoredFile, seq<bv8>>,
                          filename: string, content: seq<bv8>, fileId: Uuids.Uuid, png: seq<bv8>)
    requires ValidateImageFile(Some(filename), order).None?
    requires |content| <= MaxFileSize
    ensures var ext := Text.Lower(Text.Suffix(filename));
            var original := StoredFile(Original, Uuids.Format(fileId) + ext);
            var processed := StoredFile(Processed, Uuids.Format(fileId) + ".png");
            && ext in AllowedExtensions
            && ProcessReplyFor(baseUrl, order, Some(filename), content, fileId, Removed(png))
               == ProcessOk(ImageData(StorageUrl(baseUrl, original), StorageUrl(baseUrl, processed), processed.name, |png|))
            && FilesAfterProcess(files, Some(filename), content, fileId, Removed(png)) == files[original := content][processed := png]
            && Text.Stem(original.name) == Uuids.Format(fileId) && Text.Stem(processed.name) == Uuids.Format(fileId)
  {
    var ext := Text.Lower(Text.Suffix(filename));
    StoredNamesSplit(fileId, ext);
    StoredNamesSplit(fileId, ".png");
  }

  /** A failed background removal is reported as `PROCESSING_FAILED` (500) but
      the original has already been written: it stays in the directory with
      no processed partner and no reply naming it. */
  lemma ProcessFailureLeavesOriginal(baseUrl: string, order: seq<string>, files: map<StoredFile, seq<bv8>>,
                                     filename: string, content: seq<bv8>, fileId: Uuids.Uuid, detail: string)
    requires ValidateImageFile(Some(filename), order).None?
    requires |content| <= MaxFileSize
    ensures ProcessReplyFor(baseUrl, order, Some(filename), content, fileId, RemovalFailed(detail))
            == ProcessError(500, "PROCESSING_FAILED", "Failed to process image: " + detail)
    ensures FilesAfterProcess(files, Some(filename), content, fileId, RemovalFailed(detail))
            == files[StoredFile(Original, OriginalName(fileId, filename)) := content]
  {
  }

  lemma RelativePathInjective(f: StoredFile, g: StoredFile)
    requires RelativePath(f) == RelativePath(g)
    ensures f == g
  {
    assert RelativePath(f)[0] == RelativePath(g)[0];
    if f.area == g.area {
      var p := if f.area == Original then "original/" else "processed/";
      assert f.name == RelativePath(f)[|p|..];
      assert g.name == RelativePath(g)[|p|..];
    }
  }

  /** A sweep has so far removed exactly the files its `deleted` list names,
      kept every other file as it was, and added none. */
  ghost predicate Reports(files: map<StoredFile, seq<bv8>>, s: Sweep) {
    && s.files.Keys <= files.Keys
    && (forall f :: f in s.files ==> s.files[f] == files[f])
    && (forall f :: f in files ==> (f !in s.files <==> RelativePath(f) in s.deleted))
    && (forall x :: x in s.deleted ==> exists f :: f in files && f !in s.files && RelativePath(f) == x)
  }

  lemma UnlinkReports(files: map<StoredFile, seq<bv8>>, s: Sweep, f: StoredFile, failure: string,
                      faulty: map<StoredFile, string>)
    requires Reports(files, s) && f in s.files
    ensures Reports(files, Unlink(s, f, failure, faulty))
  {
    var t := Unlink(s, f, failure, faulty);
    if f !in faulty {
      forall g | g in files ensures g !in t.files <==> RelativePath(g) in t.deleted {
        if RelativePath(g) == RelativePath(f) { RelativePathInjective(g, f); }
      }
      forall x | x in t.deleted ensures exists g :: g in files && g !in t.files && RelativePath(g) == x {
        if x == RelativePath(f) {
          assert f in files && f !in t.files;
        } else {
          assert x in s.deleted;
          var g :| g in files && g !in s.files && RelativePath(g) == x;
          assert g !in t.files;
        }
      }
    }
  }

  lemma SweepReports(files: map<StoredFile, seq<bv8>>, filename: string, kind: string, order: seq<string>,
                     faulty: map<StoredFile, string>)
    ensures Reports(files, DeleteSweep(files, filename, kind, order, faulty))
  {
    var stem := Text.Stem(filename);
    var s0 := Sweep(files, [], []);
    var s1 := if TouchesOriginal(kind) then SweepOriginal(s0, stem, order, faulty) else s0;
    if TouchesOriginal(kind) {
      var r := FirstOriginal(files, stem, order);
      FirstOriginalFinds(files, stem, order);
      if r.Some? {
        UnlinkReports(files, s0, StoredFile(Original, stem + r.value), "Failed to delete original: ", faulty);
      }
    }
    if TouchesProcessed(kind) && StoredFile(Processed, stem + ".png") in s1.files {
      UnlinkReports(files, s1, StoredFile(Processed, stem + ".png"), "Failed to delete processed: ", faulty);
    }
  }

  /** The files a delete request of this `kind` tries to unlink under `stem`:
      the first original found and `{stem}.png`, each when present. */
  function Addressed(files: map<StoredFile, seq<bv8>>, stem: string, kind: string, order: seq<string>): set<StoredFile> {
    var original := FirstOriginal(files, stem, order);
    var processed := StoredFile(Processed, stem + ".png");
    (if TouchesOriginal(kind) && original.Some? then {StoredFile(Original, stem + original.value)} else {})
    + (if TouchesProcessed(kind) && processed in files then {processed} else {})
  }

  /** A delete request fails exactly when its `type` is invalid (400), or
      when it addressed some file and every file it addressed failed to
      unlink (500): one removal, or nothing to remove, is a success. */
  lemma DeleteFailsExactly(files: map<StoredFile, seq<bv8>>, filename: string, kind: string, order: seq<string>,
                           faulty: map<StoredFile, string>)
    ensures var addressed := Addressed(files, Text.Stem(filename), kind, order);
            var reply := DeleteReplyFor(files, filename, kind, order, faulty);
            && (reply.DeleteError? <==> kind !in DeleteKinds || (addressed != {} && addressed <= faulty.Keys))
            && (reply.DeleteError? && kind in DeleteKinds ==> reply.status == 500)
            && (kind !in DeleteKinds ==> reply.DeleteError? && reply.status == 400)
  {
    if kind in DeleteKinds {
      var stem := Text.Stem(filename);
      var s0 := Sweep(files, [], []);
      var s1 := if TouchesOriginal(kind) then SweepOriginal(s0, stem, order, faulty) else s0;
      var s2 := if TouchesProcessed(kind) then SweepProcessed(s1, stem, faulty) else s1;
      assert DeleteSweep(files, filename, kind, order, faulty) == s2;
      var processed := StoredFile(Processed, stem + ".png");
      assert s1.files.Keys <= files.Keys;
      assert processed in s1.files <==> processed in files;
      var ofs: set<StoredFile> := if TouchesOriginal(kind) && FirstOriginal(files, stem, order).Some?
                                  then {StoredFile(Original, stem + FirstOriginal(files, stem, order).value)} else {};
      var pfs: set<StoredFile> := if TouchesProcessed(kind) && processed in files then {processed} else {};
      assert Addressed(files, stem, kind, order) == ofs + pfs;
      assert s1.errors != [] <==> ofs != {} && ofs <= faulty.Keys;
      assert s1.deleted != [] <==> ofs != {} && !(ofs <= faulty.Keys);
    }
  }

  /** What a delete reports matches what it did: a success lists exactly the
      files it removed (as `original/...` or `processed/...`); a server error
      means nothing was removed; no file is added or altered. */
  lemma DeleteReportsRemovals(files: map<StoredFile, seq<bv8>>, filename: string, kind: string, order: seq<string>,
                              faulty: map<StoredFile, string>)
    ensures var after := FilesAfterDelete(files, filename, kind, order, faulty);
            && after.Keys <= files.Keys
            && (forall f :: f in after ==> after[f] == files[f])
            && match DeleteReplyFor(files, filename, kind, order, faulty)
               case DeleteOk(deleted) =>
                 (forall f :: f in files ==> (f !in after <==> RelativePath(f) in deleted))
                 && (forall x :: x in deleted ==> exists f :: f in files && f !in after && RelativePath(f) == x)
               case DeleteError(_, _, _) => after == files
  {
    SweepReports(files, filename, kind, order, faulty);
    if kind in DeleteKinds {
      var s := DeleteSweep(files, filename, kind, order, faulty);
      assert FilesAfterDelete(files, filename, kind, order, faulty) == s.files;
      if !(s.errors != [] && s.deleted == []) {
        assert DeleteReplyFor(files, filename, kind, order, faulty) == DeleteOk(s.deleted);
        var after := FilesAfterDelete(files, filename, kind, order, faulty);
        forall x | x in s.deleted ensures exists f :: f in files && f !in after && RelativePath(f) == x {
          var f :| f in files && f !in s.files && RelativePath(f) == x;
          assert f !in after;
        }
      }
    }
  }

  /** Only the files the stem addresses can go: for `original` and `both` at
      most one original, the first found in iteration order; for `processed`
      and `both` only `{stem}.png`. An unknown `type` is refused with
      `INVALID_INPUT` and changes nothing. */
  lemma DeleteRemovesOnlyAddressed(files: map<StoredFile, seq<bv8>>, filename: string, kind: string, order: seq<string>,
                                   faulty: map<StoredFile, string>)
    ensures var after := FilesAfterDelete(files, filename, kind, order, faulty);
            var stem := Text.Stem(filename);
            forall f :: f in files && f !in after ==>
              (TouchesProcessed(kind) && f == StoredFile(Processed, stem + ".png"))
              || (TouchesOriginal(kind) && FirstOriginal(files, stem, order).Some?
                  && f == StoredFile(Original, stem + FirstOriginal(files, stem, order).value))
    ensures kind !in DeleteKinds ==>
              FilesAfterDelete(files, filename, kind, order, faulty) == files
              && DeleteReplyFor(files, filename, kind, order, faulty).DeleteError?
              && DeleteReplyFor(files, filename, kind, order, faulty).code == "INVALID_INPUT"
  {
  }

  /** Deleting files that are not there succeeds with an empty `deleted` list
      and changes nothing. */
  lemma DeleteAbsentSucceeds(files: map<StoredFile, seq<bv8>>, filename: string, kind: string, order: seq<string>,
                             faulty: map<StoredFile, string>)
    requires kind in DeleteKinds
    requires forall i :: 0 <= i < |order| ==> StoredFile(Original, Text.Stem(filename) + order[i]) !in files
    requires StoredFile(Processed, Text.Stem(filename) + ".png") !in files
    ensures DeleteReplyFor(files, filename, kind, order, faulty) == DeleteOk([])
    ensures FilesAfterDelete(files, filename, kind, order, faulty) == files
  {
    FirstOriginalFinds(files, Text.Stem(filename), order);
  }

  /** Every file a request of this `kind` addresses under `stem` that is
      still present is one whose unlink raises. */
  predicate Settled(files: map<StoredFile, seq<bv8>>, stem: string, kind: string, order: seq<string>,
                    faulty: map<StoredFile, string>)
  {
    && (TouchesOriginal(kind) ==>
          forall i :: 0 <= i < |order| && StoredFile(Original, stem + order[i]) in files ==>
            StoredFile(Original, stem + order[i]) in faulty)
    && (TouchesProcessed(kind) && StoredFile(Processed, stem + ".png") in files ==>
          StoredFile(Processed, stem + ".png") in faulty)
  }

  /** A delete request finds nothing to remove in a settled directory. */
  lemma SettledDeleteIsNoop(files: map<StoredFile, seq<bv8>>, filename: string, kind: string, order: seq<string>,
                            faulty: map<StoredFile, string>)
    requires Settled(files, Text.Stem(filename), kind, order, faulty)
    ensures FilesAfterDelete(files, filename, kind, order, faulty) == files
  {
    var stem := Text.Stem(filename);
    if kind in DeleteKinds && TouchesOriginal(kind) {
      FirstOriginalFinds(files, stem, order);
    }
  }

  /** With at most one original under the stem, a delete request leaves the
      directory settled. */
  lemma DeleteSettles(files: map<StoredFile, seq<bv8>>, filename: string, kind: string, order: seq<string>,
                      faulty: map<StoredFile, string>)
    requires forall i, j :: 0 <= i < j < |order| ==>
               !(StoredFile(Original, Text.Stem(filename) + order[i]) in files
                 && StoredFile(Original, Text.Stem(filename) + order[j]) in files)
    ensures Settled(FilesAfterDelete(files, filename, kind, order, faulty), Text.Stem(filename), kind, order, faulty)
  {
    var stem := Text.Stem(filename);
    var once := FilesAfterDelete(files, filename, kind, order, faulty);
    if kind in DeleteKinds {
      var s0 := Sweep(files, [], []);
      var s1 := if TouchesOriginal(kind) then SweepOriginal(s0, stem, order, faulty) else s0;
      assert once == (if TouchesProcessed(kind) then SweepProcessed(s1, stem, faulty) else s1).files;
      assert once.Keys <= s1.files.Keys <= files.Keys;
      if TouchesOriginal(kind) {
        FirstOriginalFinds(files, stem, order);
        var r := FirstOriginal(files, stem, order);
        if r.Some? {
          var i :| 0 <= i < |order| && order[i] == r.value && StoredFile(Original, stem + order[i]) in files
                   && forall j :: 0 <= j < i ==> StoredFile(Original, stem + order[j]) !in files;
          var f := StoredFile(Original, stem + order[i]);
          assert f !in faulty ==> f !in s1.files;
          forall j | 0 <= j < |order| && j != i ensures StoredFile(Original, stem + order[j]) !in files {
            if j > i { assert !(f in files && StoredFile(Original, stem + order[j]) in files); }
          }
        }
      }
      var p := StoredFile(Processed, stem + ".png");
      assert TouchesProcessed(kind) && p in once ==> p in faulty;
    }
  }

  /** When at most one original exists under the stem, repeating a delete
      request changes nothing more: the second request finds nothing left
      that the first could remove. */
  lemma DeleteRepeatable(files: map<StoredFile, seq<bv8>>, filename: string, kind: string, order: seq<string>,
                         faulty: map<StoredFile, string>)
    requires forall i, j :: 0 <= i < j < |order| ==>
               !(StoredFile(Original, Text.Stem(filename) + order[i]) in files
                 && StoredFile(Original, Text.Stem(filename) + order[j]) in files)
    ensures var once := FilesAfterDelete(files, filename, kind, order, faulty);
            FilesAfterDelete(once, filename, kind, order, faulty) == once
  {
    DeleteSettles(files, filename, kind, order, faulty);
    SettledDeleteIsNoop(FilesAfterDelete(files, filename, kind, order, faulty), filename, kind, order, faulty);
  }

  /** When the original under exactly one extension exists, the search finds it. */
  lemma {:induction false} FirstOriginalUnique(files: map<StoredFile, seq<bv8>>, stem: string, order: seq<string>, k: nat)
    requires k < |order| && StoredFile(Original, stem + order[k]) in files
    requires forall j :: 0 <= j < |order| && j != k ==> StoredFile(Original, stem + order[j]) !in files
    ensures FirstOriginal(files, stem, order) == Some(order[k])
    decreases |order|
  {
    if k > 0 {
      forall j | 0 <= j < |order[1..]| && j != k - 1 ensures StoredFile(Original, stem + order[1..][j]) !in files {
        assert order[1..][j] == order[j + 1];
      }
      FirstOriginalUnique(files, stem, order[1..], k - 1);
    }
  }
}
