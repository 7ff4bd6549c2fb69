/**
 * What `upload` and `delete` compute from a request before they touch the
 * disk: the outcome of the validation rules they declare, the storage
 * directory built from `file_type` and `directory_path`, and the stored file
 * name built from the client's file name, the clock and a unique token.
 */
module UploadRequests {
  import opened PhpStrings
  import opened PathSanitizer
  import opened StoragePaths

  /** A request input as the controller sees it: absent, a string, or some other value (null, an array, a number). */
  datatype Field = Missing | Text(value: Bytes) | NotText

  /** The part of an uploaded file that the controller uses; `stem` and `extension` are what the framework derives from `originalName`. */
  datatype UploadedFile = UploadedFile(
    originalName: Bytes,
    stem: Bytes,
    extension: Bytes,
    size: nat,
    mimeType: Bytes,
    isValid: bool)

  /** The `file` input: absent or empty, present but not an uploaded file, or an uploaded file. */
  datatype FilePart = NoFile | NotAFile | Attached(file: UploadedFile)

  datatype UploadRequest = UploadRequest(
    file: FilePart,
    fileType: Field,
    directoryPath: Field,
    relativePath: Field)

  /** The `max:102400` limit on the file, in kilobytes of 1024 bytes. */
  const MaxKilobytes: nat := 102400

  /** `required|file|max:102400`: a successfully uploaded file of at most 100 MiB. */
  predicate FileRulePasses(f: FilePart)
  {
    f.Attached? && f.file.isValid && f.file.size <= MaxKilobytes * 1024
  }

  /** `sometimes|string`: the input is either absent or a string. */
  predicate OptionalStringPasses(f: Field)
  {
    !f.NotText?
  }

  /** The rules `upload` checks before anything else. */
  predicate UploadPassesValidation(req: UploadRequest)
  {
    && FileRulePasses(req.file)
    && OptionalStringPasses(req.fileType)
    && OptionalStringPasses(req.directoryPath)
    && OptionalStringPasses(req.relativePath)
  }

  /** The bytes PHP's `trim` removes by default, which decide whether a string counts as blank. */
  const Whitespace: set<Byte> := {' ', '\t', '\n', '\r', '\0', '\U{0B}'}

  /** `required|string`: a string that is not blank. */
  predicate RequiredStringPasses(f: Field)
  {
    f.Text? && Trim(f.value, Whitespace) != []
  }

  /** `$request->input($name, $default)` for an input that passed `sometimes|string`. */
  function InputOr(f: Field, default: Bytes): Bytes
  {
    if f.Text? then f.value else default
  }

  /**
   * The storage directory: the category directory, followed by `/` and the
   * sanitized directory path unless that path is empty in PHP's sense (""
   * or "0"). The category directory is always a prefix, and what follows
   * it, if anything, is a slash and bytes of `[a-zA-Z0-9/_-]`.
   */
  function ComposeStoragePath(basePath: Bytes, directoryPath: Bytes): (r: Bytes)
    ensures basePath <= r
    ensures r == basePath <==> PhpEmpty(directoryPath)
    ensures r != basePath ==> r[|basePath|] == '/' && AllSafe(r[|basePath| + 1..])
  {
    if !PhpEmpty(directoryPath) then Subdirectory(basePath, SanitizePath(directoryPath)) else basePath
  }

  /** `$base . '/' . $sub`: the base, a slash, then the sub-path, each recoverable from the result. */
  function Subdirectory(basePath: Bytes, sub: Bytes): (r: Bytes)
    ensures |r| == |basePath| + 1 + |sub|
    ensures r[..|basePath|] == basePath && r[|basePath|] == '/' && r[|basePath| + 1..] == sub
  {
    var r := basePath + "/" + sub;
    assert r[..|basePath|] == basePath;
    r
  }

  /** A directory path of "0" is empty to PHP, so the file goes straight into the category directory. */
  lemma ZeroDirectoryIsIgnored(basePath: Bytes)
    ensures ComposeStoragePath(basePath, "0") == basePath
  {
  }

  /** A directory path that sanitizes to nothing still adds the separator: the storage path ends in `/`. */
  lemma SeparatorOnlyDirectoryEndsInSlash(basePath: Bytes)
    ensures ComposeStoragePath(basePath, "/") == basePath + "/"
  {
    SanitizeSeparatorsOnly();
  }

  /**
   * Lines 37-51 of `upload`: `file_type` defaults to `misc`, `directory_path`
   * to the empty string. The result lies under the category directory of
   * the label and contains neither `.` nor `\`, so no `..` segment can take
   * it out of that directory.
   */
  function StorageDirectory(fileType: Field, directoryPath: Field): (r: Bytes)
    ensures GetStoragePath(InputOr(fileType, "misc")) <= r
    ensures '.' !in r && '\\' !in r
  {
    var basePath := GetStoragePath(InputOr(fileType, "misc"));
    var r := ComposeStoragePath(basePath, InputOr(directoryPath, ""));
    CategoryDirectoryIsPlain(basePath);
    assert '.' !in r && '\\' !in r by {
      forall i | 0 <= i < |r| ensures r[i] != '.' && r[i] != '\\' {
        if i < |basePath| {
          assert r[i] == basePath[i];
        } else if i > |basePath| {
          assert r[i] == r[|basePath| + 1..][i - |basePath| - 1];
        }
      }
    }
    r
  }

  /** `file_type=images` without a directory path stores into `uploads/images`. */
  lemma ImagesWithoutDirectory()
    ensures StorageDirectory(Text("images"), Missing) == "uploads/images"
  {
  }

  /** An unknown `file_type`, and a missing one, both store into `uploads/misc`. */
  lemma UnknownCategoryFallsBack(fileType: Bytes)
    requires fileType !in Categories
    ensures StorageDirectory(Text(fileType), Missing) == "uploads/misc"
    ensures StorageDirectory(Missing, Missing) == "uploads/misc"
  {
  }

  /** A category directory contains no dot and no backslash. */
  lemma CategoryDirectoryIsPlain(basePath: Bytes)
    requires basePath in IndexedDirectories
    ensures '.' !in basePath && '\\' !in basePath
  {
    IndexedDirectoriesShape();
    var i :| 0 <= i < |IndexedDirectories| && IndexedDirectories[i] == basePath;
    assert IsCategoryDirectory(basePath);
    forall j | 0 <= j < |basePath| ensures basePath[j] != '.' && basePath[j] != '\\' {
      if j >= 8 {
        assert basePath[j] == basePath[8..][j - 8];
      } else {
        assert basePath[j] == basePath[..8][j];
      }
    }
  }

  /** The stored file name `<stem>_<time>_<token>.<extension>`; the dot is there even when the extension is empty. */
  function UniqueFilename(stem: Bytes, timestamp: nat, token: Bytes, extension: Bytes): (r: Bytes)
    ensures |r| == |stem| + |Decimal(timestamp)| + |token| + |extension| + 3
  {
    stem + "_" + Decimal(timestamp) + "_" + token + "." + extension
  }

  /** The stored name splits back into its parts, given the lengths of stem, timestamp and token. */
  lemma {:induction false} UniqueFilenameParts(stem: Bytes, timestamp: nat, token: Bytes, extension: Bytes)
    ensures var r := UniqueFilename(stem, timestamp, token, extension);
      var t := Decimal(timestamp);
      var a := |stem| + 1;
      var b := a + |t| + 1;
      var c := b + |token| + 1;
      && r[..|stem|] == stem && r[|stem|] == '_'
      && r[a..a + |t|] == t && r[a + |t|] == '_'
      && r[b..b + |token|] == token && r[b + |token|] == '.'
      && r[c..] == extension
  {
    var t := Decimal(timestamp);
    var r := UniqueFilename(stem, timestamp, token, extension);
    var a := |stem| + 1;
    var b := a + |t| + 1;
    var c := b + |token| + 1;
    assert r == stem + "_" + t + "_" + token + "." + extension;
    assert r[..|stem|] == stem;
    assert r[a..a + |t|] == t;
    assert r[b..b + |token|] == token;
    assert r[c..] == extension;
  }

  /**
   * Two uploads of the same file name get different stored names as long as
   * their timestamps or their tokens differ, the tokens having one length
   * (`uniqid` always gives 13 bytes).
   */
  lemma DistinctUploadsGetDistinctNames(stem: Bytes, extension: Bytes, t1: nat, token1: Bytes, t2: nat, token2: Bytes)
    requires |token1| == |token2|
    requires t1 != t2 || token1 != token2
    ensures UniqueFilename(stem, t1, token1, extension) != UniqueFilename(stem, t2, token2, extension)
  {
    var d1, d2 := Decimal(t1), Decimal(t2);
    if |d1| == |d2| && UniqueFilename(stem, t1, token1, extension) == UniqueFilename(stem, t2, token2, extension) {
      UniqueFilenameParts(stem, t1, token1, extension);
      UniqueFilenameParts(stem, t2, token2, extension);
      assert d1 == d2;
      DecimalInjective(t1, t2);
    }
  }

  /** A stored name holds no slash when the stem, token and extension hold none. */
  lemma UniqueFilenameHasNoSlash(stem: Bytes, timestamp: nat, token: Bytes, extension: Bytes)
    ensures '/' !in stem && '/' !in token && '/' !in extension ==>
      '/' !in UniqueFilename(stem, timestamp, token, extension)
  {
    var t := Decimal(timestamp);
    assert '/' !in t by {
      forall i | 0 <= i < |t| ensures t[i] != '/' {
        assert IsDigit(t[i]);
      }
    }
  }
}
