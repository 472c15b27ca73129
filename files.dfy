/** FileServiceImpl: the upload checks, the naming of stored files and paths,
    and the deletion of a file record. The bytes themselves, the storage back
    ends and thumbnail rendering stay outside the model. */
module Files {

  import opened Wrappers
  import opened Text

  /** The MIME types isImage accepts. */
  const ImageTypes: set<string> := {"image/jpeg", "image/png", "image/gif", "image/webp", "image/bmp"}

  /** The storage settings the checks read: sizes in megabytes and the allowed
      MIME types. */
  datatype StorageConfig = StorageConfig(maxFileSize: int, maxImageSize: int, allowedTypes: seq<string>)

  /** StorageConfig's defaults. */
  const DefaultConfig := StorageConfig(50, 10, [
    "image/jpeg", "image/png", "image/gif", "image/webp",
    "application/pdf", "application/msword",
    "application/vnd.openxmlformats-officedocument.wordprocessingml.document",
    "application/vnd.ms-excel",
    "application/vnd.openxmlformats-officedocument.spreadsheetml.sheet",
    "application/zip", "application/x-rar-compressed",
    "text/plain"])

  /** An uploaded part: its byte count, its declared content type and file name. */
  datatype Upload = Upload(size: nat, contentType: Option<string>, originalName: Option<string>)

  const MB := 1024 * 1024

  /** isImage: the lower-cased type is one of the five image types. */
  predicate IsImage(contentType: Option<string>)
  {
    contentType.Some? && ToLower(contentType.value) in ImageTypes
  }

  /** The image check ignores the case of ASCII letters. */
  lemma IsImageIgnoresCase(s: string)
    ensures IsImage(Some(s)) <==> IsImage(Some(ToLower(s)))
    ensures IsImage(Some("IMAGE/PNG")) && !IsImage(Some("image/svg+xml")) && !IsImage(None)
  {
    ToLowerIdempotent(s);
    assert ToLower("IMAGE/PNG") == "image/png";
    assert "image/svg+xml" != "image/jpeg" && "image/svg+xml" != "image/bmp";
    assert ToLower("image/svg+xml") == "image/svg+xml";
  }

  /** `String.equalsIgnoreCase`, for ASCII letters. */
  predicate EqualsIgnoreCase(a: string, b: string)
  {
    ToLower(a) == ToLower(b)
  }

  predicate AllowedType(allowed: seq<string>, contentType: string)
  {
    exists i :: 0 <= i < |allowed| && EqualsIgnoreCase(allowed[i], contentType)
  }

  /** isAllowedType: the search loop over the configured types. */
  method IsAllowedType(allowed: seq<string>, contentType: string) returns (b: bool)
    ensures b <==> AllowedType(allowed, contentType)
  {
    var i := 0;
    while i < |allowed|
      invariant 0 <= i <= |allowed|
      invariant forall k :: 0 <= k < i ==> !EqualsIgnoreCase(allowed[k], contentType)
    {
      if EqualsIgnoreCase(allowed[i], contentType) {
        return true;
      }
      i := i + 1;
    }
    return false;
  }

  /** The reasons validateFile and validateImageFile throw, in the order they are
      checked; `None` when the upload passes. */
  function FileRejection(file: Option<Upload>, config: StorageConfig): (r: Option<string>)
    ensures r.None? <==> file.Some? && 0 < file.value.size <= config.maxFileSize * MB
                         && (file.value.contentType.Some? ==> AllowedType(config.allowedTypes, file.value.contentType.value))
  {
    if file.None? || file.value.size == 0 then Some("file is empty")
    else if file.value.size > config.maxFileSize * MB then Some("file too large")
    else if file.value.contentType.Some? && !AllowedType(config.allowedTypes, file.value.contentType.value) then Some("type not allowed")
    else None
  }

  function ImageRejection(file: Option<Upload>, config: StorageConfig): (r: Option<string>)
    ensures r.None? <==> FileRejection(file, config).None? && file.value.size <= config.maxImageSize * MB
                         && IsImage(file.value.contentType)
    ensures FileRejection(file, config).Some? ==> r == FileRejection(file, config)
  {
    var basic := FileRejection(file, config);
    if basic.Some? then basic
    else if file.value.size > config.maxImageSize * MB then Some("image too large")
    else if !IsImage(file.value.contentType) then Some("not an image")
    else None
  }

  /** validateFile. A missing content type is not checked against the list. */
  method ValidateFile(file: Option<Upload>, config: StorageConfig) returns (r: Option<ErrorCode>)
    ensures r.None? <==> FileRejection(file, config).None?
    ensures r.Some? ==> r.value == Uncaught("IllegalArgumentException")
  {
    if file.None? || file.value.size == 0 {
      return Some(Uncaught("IllegalArgumentException"));
    }
    if file.value.size > config.maxFileSize * MB {
      return Some(Uncaught("IllegalArgumentException"));
    }
    var contentType := file.value.contentType;
    if contentType.Some? {
      var allowed := IsAllowedType(config.allowedTypes, contentType.value);
      if !allowed {
        return Some(Uncaught("IllegalArgumentException"));
      }
    }
    r := None;
  }

  /** validateImageFile: validateFile, then the image size and type. */
  method ValidateImageFile(file: Option<Upload>, config: StorageConfig) returns (r: Option<ErrorCode>)
    ensures r.None? <==> ImageRejection(file, config).None?
    ensures r.Some? ==> r.value == Uncaught("IllegalArgumentException")
  {
    r := ValidateFile(file, config);
    if r.Some? {
      return;
    }
    if file.value.size > config.maxImageSize * MB {
      return Some(Uncaught("IllegalArgumentException"));
    }
    if !IsImage(file.value.contentType) {
      return Some(Uncaught("IllegalArgumentException"));
    }
  }

  /** With the default settings an image must pass both lists, so a BMP, which
      isImage accepts, is never let through. */
  lemma DefaultConfigRejectsBmp(file: Upload)
    requires file.contentType == Some("image/bmp")
    ensures FileRejection(Some(file), DefaultConfig).Some?
  {
    var ts := DefaultConfig.allowedTypes;
    assert forall t :: t in ts ==> |t| != 9 || LowerChar(t[6]) != 'b';
    forall i | 0 <= i < |ts|
      ensures !EqualsIgnoreCase(ts[i], "image/bmp")
    {
      assert ts[i] in ts;
      NotBmp(ts[i]);
    }
  }

  lemma NotBmp(t: string)
    requires |t| != 9 || LowerChar(t[6]) != 'b'
    ensures !EqualsIgnoreCase(t, "image/bmp")
  {
    var bmp := ToLower("image/bmp");
    assert |bmp| == 9 && bmp[6] == LowerChar('b') == 'b';
    if |t| == 9 {
      assert ToLower(t)[6] != bmp[6];
    }
  }

  /** upload's route: the checks of validateFile, then, for an image, those of
      validateImageFile; `Ok(true)` for the image path. */
  method CheckUpload(file: Option<Upload>, config: StorageConfig) returns (r: Result<bool>)
    ensures r.Ok? <==> FileRejection(file, config).None? && (IsImage(file.value.contentType) ==> ImageRejection(file, config).None?)
    ensures r.Ok? ==> r.value == IsImage(file.value.contentType)
    ensures r.Err? ==> r.error == Uncaught("IllegalArgumentException")
  {
    var bad := ValidateFile(file, config);
    if bad.Some? {
      return Err(bad.value);
    }
    if IsImage(file.value.contentType) {
      bad := ValidateImageFile(file, config);
      if bad.Some? {
        return Err(bad.value);
      }
      return Ok(true);
    }
    r := Ok(false);
  }

  // ---------------------------------------------------------------------------
  // Names and paths

  /** The position of the last `c` in s[..n], if any. */
  function LastIndexOf(s: string, c: char, n: nat): (r: Option<nat>)
    requires n <= |s|
    ensures r.Some? ==> r.value < n && s[r.value] == c && forall k :: r.value < k < n ==> s[k] != c
    ensures r.None? <==> forall k :: 0 <= k < n ==> s[k] != c
  {
    if n == 0 then None
    else if s[n - 1] == c then Some(n - 1)
    else LastIndexOf(s, c, n - 1)
  }

  /** getFileExtension: the lower-cased text after the last dot, or "" for a
      missing name or one without a dot. */
  function GetFileExtension(filename: Option<string>): (r: string)
    ensures '.' !in r
    ensures filename.None? || '.' !in filename.value ==> r == ""
    ensures filename.Some? && '.' in filename.value ==>
      exists i :: 0 <= i < |filename.value| && filename.value[i] == '.' && r == ToLower(filename.value[i + 1..])
  {
    if filename.None? then ""
    else
      var at := LastIndexOf(filename.value, '.', |filename.value|);
      if at.None? then ""
      else
        var tail := filename.value[at.value + 1..];
        assert forall k :: 0 <= k < |tail| ==> tail[k] == filename.value[at.value + 1 + k];
        ToLower(tail)
  }

  lemma GetFileExtensionExamples()
    ensures GetFileExtension(Some("report.final.PDF")) == "pdf"
    ensures GetFileExtension(Some("README")) == ""
    ensures GetFileExtension(Some("archive.")) == ""
    ensures GetFileExtension(None) == ""
  {
    assert LastIndexOf("report.final.PDF", '.', 16) == Some(12);
    assert "report.final.PDF"[13..] == "PDF";
    assert ToLower("PDF") == "pdf";
    assert '.' !in "README" by {
      forall k | 0 <= k < 6 ensures "README"[k] != '.' {}
    }
  }

  /** The characters of s other than `c`. */
  function Without(s: string, c: char): (r: string)
    ensures c !in r
    ensures forall x :: x in r <==> x in s && x != c
  {
    if s == [] then []
    else (if s[0] == c then [] else [s[0]]) + Without(s[1..], c)
  }

  /** generateStoredName for a random UUID in its textual form: the UUID without
      hyphens, then a dot and the extension when the extension has text. */
  function GenerateStoredName(uuid: string, extension: string): (r: string)
    ensures HasText(extension) ==> r == Without(uuid, '-') + "." + extension
    ensures !HasText(extension) ==> r == Without(uuid, '-')
  {
    Without(uuid, '-') + (if HasText(extension) then "." + extension else "")
  }

  /** The extension of "a.b" is b lower-cased when b has no dot. */
  lemma ExtensionAfterLastDot(a: string, b: string)
    requires '.' !in b
    ensures GetFileExtension(Some(a + "." + b)) == ToLower(b)
  {
    var name := a + "." + b;
    assert name[|a|] == '.';
    forall k | |a| < k < |name| ensures name[k] != '.' {
      assert name[k] == b[k - |a| - 1];
    }
    var at := LastIndexOf(name, '.', |name|);
    assert at.Some?;
    assert at.value == |a|;
    assert name[|a| + 1..] == b;
  }

  /** A stored name gives back the extension it was made with: the name's own
      extension is the lower-case, dot-free extension that has text, and "" for
      an extension without text. */
  lemma StoredNameKeepsExtension(uuid: string, extension: string)
    requires '.' !in uuid && '.' !in extension && ToLower(extension) == extension
    ensures HasText(extension) ==> GetFileExtension(Some(GenerateStoredName(uuid, extension))) == extension
    ensures !HasText(extension) ==> GetFileExtension(Some(GenerateStoredName(uuid, extension))) == ""
  {
    var hex := Without(uuid, '-');
    if HasText(extension) {
      ExtensionAfterLastDot(hex, extension);
    } else {
      assert GenerateStoredName(uuid, extension) == hex;
    }
  }

  /** generateFilePath: "<business type or other>/<date>/<stored name>", with the
      date already formatted as yyyy/MM/dd. */
  function GenerateFilePath(businessType: Option<string>, datePath: string, storedName: string): (r: string)
    ensures businessType.Some? && HasText(businessType.value) ==> r == businessType.value + "/" + datePath + "/" + storedName
    ensures businessType.None? || !HasText(businessType.value) ==> r == "other/" + datePath + "/" + storedName
  {
    (if businessType.Some? && HasText(businessType.value) then businessType.value else "other") + "/" + datePath + "/" + storedName
  }

  /** `path.replace(".", "_thumb.")`: every dot, not only the extension's. */
  function ThumbnailPath(path: string): string
  {
    if path == [] then []
    else (if path[0] == '.' then "_thumb." else [path[0]]) + ThumbnailPath(path[1..])
  }

  lemma {:induction false} ThumbnailNoDot(s: string)
    requires '.' !in s
    ensures ThumbnailPath(s) == s
  {
    if s != [] {
      assert '.' !in s[1..];
      ThumbnailNoDot(s[1..]);
    }
  }

  lemma {:induction false} ThumbnailAppend(a: string, b: string)
    ensures ThumbnailPath(a + b) == ThumbnailPath(a) + ThumbnailPath(b)
  {
    if a != [] {
      assert (a + b)[0] == a[0] && (a + b)[1..] == a[1..] + b;
      ThumbnailAppend(a[1..], b);
    } else {
      assert a + b == b;
    }
  }

  /** A path with one dot gets "_thumb" before its extension. */
  lemma ThumbnailOneDot(stem: string, extension: string)
    requires '.' !in stem && '.' !in extension
    ensures ThumbnailPath(stem + "." + extension) == stem + "_thumb." + extension
  {
    ThumbnailAppend(stem + ".", extension);
    ThumbnailAppend(stem, ".");
    ThumbnailNoDot(stem);
    ThumbnailNoDot(extension);
  }

  /** Every dot gets the suffix, so a dot inside the directory part is changed
      too. */
  lemma ThumbnailEveryDot(a: string, b: string, c: string)
    requires '.' !in a && '.' !in b && '.' !in c
    ensures ThumbnailPath(a + "." + b + "." + c) == a + "_thumb." + b + "_thumb." + c
  {
    ThumbnailAppend(a + "." + b + ".", c);
    ThumbnailAppend(a + "." + b, ".");
    ThumbnailAppend(a + ".", b);
    ThumbnailAppend(a, ".");
    ThumbnailNoDot(a);
    ThumbnailNoDot(b);
    ThumbnailNoDot(c);
  }

  // ---------------------------------------------------------------------------
  // Deletion

  /** The fields of a `file_record` row that delete reads and writes; status 0
      marks a deleted record. */
  datatype FileRecord = FileRecord(userId: nat, filePath: string, thumbnailUrl: Option<string>, status: int)

  class FileService {
    var records: seq<FileRecord>
    /** The paths handed to the storage service's delete, in order. */
    var storageDeletes: seq<string>

    constructor()
      ensures records == [] && storageDeletes == []
    {
      records := [];
      storageDeletes := [];
    }

    /** delete(fileId) by `actor` (None when nobody is signed in). A missing or
        already deleted record gives false; a signed-in user who neither owns it
        nor is an administrator is refused. Otherwise the stored file and its
        thumbnail are deleted and the record's status becomes 0. */
    method Delete(fileId: nat, actor: Option<nat>, actorIsAdmin: bool) returns (r: Result<bool>)
      modifies this
      ensures fileId >= |old(records)| || old(records)[fileId].status == 0 ==>
        r == Ok(false) && records == old(records) && storageDeletes == old(storageDeletes)
      ensures fileId < |old(records)| && old(records)[fileId].status != 0 ==>
        var rec := old(records)[fileId];
        if actor.Some? && actor.value != rec.userId && !actorIsAdmin then
          r == Err(Uncaught("RuntimeException")) && records == old(records) && storageDeletes == old(storageDeletes)
        else
          r == Ok(true) && records == old(records)[fileId := rec.(status := 0)]
          && storageDeletes == old(storageDeletes) + [rec.filePath]
                               + (if rec.thumbnailUrl.Some? && HasText(rec.thumbnailUrl.value) then [ThumbnailPath(rec.filePath)] else [])
    {
      if fileId >= |records| || records[fileId].status == 0 {
        return Ok(false);
      }
      var rec := records[fileId];
      if actor.Some? && actor.value != rec.userId && !actorIsAdmin {
        return Err(Uncaught("RuntimeException"));
      }
      storageDeletes := storageDeletes + [rec.filePath];
      if rec.thumbnailUrl.Some? && HasText(rec.thumbnailUrl.value) {
        storageDeletes := storageDeletes + [ThumbnailPath(rec.filePath)];
      }
      records := records[fileId := rec.(status := 0)];
      r := Ok(true);
    }
  }
}
