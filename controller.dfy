/**
 * `FileUploadController`: the `upload`, `index` and `delete` actions over
 * the public disk. The clock (`time()`) and the unique token (`uniqid()`)
 * are parameters of `upload`; the order in which the storage driver lists
 * a directory is a parameter of `index`.
 */
module Controller {
  import opened PhpStrings
  import PathSanitizer
  import opened StoragePaths
  import opened UploadRequests
  import opened PublicDisk

  /** The `data` object of a successful upload response; the public URL is left out. */
  datatype UploadRecord = UploadRecord(
    originalName: Bytes,
    storedName: Bytes,
    path: Bytes,
    size: nat,
    mimeType: Bytes,
    fileType: Bytes,
    directoryPath: Bytes,
    relativePath: Bytes)

  datatype UploadResponse = UploadRejected | Uploaded(data: UploadRecord)
  {
    /** The HTTP status of the JSON response. */
    function Status(): int
    {
      if Uploaded? then 200 else 422
    }
  }

  datatype DeleteResponse = DeleteRejected | FileNotFound | FileDeleted
  {
    /** The HTTP status of the JSON response. */
    function Status(): int
    {
      match this
      case DeleteRejected => 422
      case FileNotFound => 404
      case FileDeleted => 200
    }
  }

  /**
   * The path a valid upload is stored at: its storage directory, a slash and
   * its stored name. It lies directly in the storage directory whenever the
   * client's stem and extension and the token hold no slash.
   */
  function StoredPath(req: UploadRequest, now: nat, token: Bytes): (r: Bytes)
    requires FileRulePasses(req.file)
    ensures var f := req.file.file;
      '/' !in f.stem && '/' !in token && '/' !in f.extension ==>
        InDirectory(r, StorageDirectory(req.fileType, req.directoryPath))
  {
    var f := req.file.file;
    var directory := StorageDirectory(req.fileType, req.directoryPath);
    var name := UniqueFilename(f.stem, now, token, f.extension);
    var r := Subdirectory(directory, name);
    assert r[..|directory| + 1] == directory + "/";
    UniqueFilenameHasNoSlash(f.stem, now, token, f.extension);
    r
  }

  /** The disk entry a valid upload writes: the file's size and type, modified now. */
  function StoredEntry(req: UploadRequest, now: nat): (e: Entry)
    requires FileRulePasses(req.file)
    ensures e.size <= MaxKilobytes * 1024 && e.lastModified == now
  {
    Entry(req.file.file.size, req.file.file.mimeType, now)
  }

  /** Every stored path lies under `uploads/`, so it is never blank. */
  lemma StoredPathUnderUploads(req: UploadRequest, now: nat, token: Bytes)
    requires FileRulePasses(req.file)
    ensures "uploads/" <= StoredPath(req, now, token)
  {
    var basePath := GetStoragePath(InputOr(req.fileType, "misc"));
    StoragePathIsIndexed(InputOr(req.fileType, "misc"));
    IndexedDirectoriesShape();
    assert IsCategoryDirectory(basePath);
    var p := StoredPath(req, now, token);
    assert basePath <= StorageDirectory(req.fileType, req.directoryPath) <= p;
    assert p[..8] == basePath[..8];
  }

  /**
   * `delete` undoes `upload`: the path an upload answers with passes the
   * `required|string` rule and exists afterwards, and removing it gives back
   * the disk from before the upload when nothing was stored there before.
   */
  lemma DeleteUndoesUpload(disk: Disk, req: UploadRequest, now: nat, token: Bytes)
    requires FileRulePasses(req.file)
    requires StoredPath(req, now, token) !in disk
    ensures var p := StoredPath(req, now, token);
      var after := disk[p := StoredEntry(req, now)];
      && RequiredStringPasses(Text(p))
      && Exists(after, p)
      && after - {p} == disk
  {
    var p := StoredPath(req, now, token);
    StoredPathUnderUploads(req, now, token);
    assert p[0] == 'u' && 'u' !in Whitespace;
    TrimBlank(p, Whitespace);
  }

  /**
   * A file uploaded without a directory path, whose client name and token
   * hold no slash, shows up in the next `index`, with the size and time the
   * upload wrote.
   */
  lemma UploadIsListed(disk: Disk, req: UploadRequest, now: nat, token: Bytes, list: Bytes -> seq<Bytes>)
    requires FileRulePasses(req.file)
    requires PhpEmpty(InputOr(req.directoryPath, ""))
    requires '/' !in req.file.file.stem && '/' !in token && '/' !in req.file.file.extension
    requires ListsAll(disk[StoredPath(req, now, token) := StoredEntry(req, now)], list, IndexedDirectories)
    ensures var p := StoredPath(req, now, token);
      var l := Listing(disk[p := StoredEntry(req, now)], list, IndexedDirectories);
      exists i :: 0 <= i < |l| && l[i] == Listed(p, req.file.file.size, now)
  {
    var p := StoredPath(req, now, token);
    var after := disk[p := StoredEntry(req, now)];
    var directory := StorageDirectory(req.fileType, req.directoryPath);
    StoragePathIsIndexed(InputOr(req.fileType, "misc"));
    assert directory in IndexedDirectories;
    ListingComplete(after, list, IndexedDirectories, directory, p);
    var l := Listing(after, list, IndexedDirectories);
    var i :| 0 <= i < |l| && l[i].path == p;
    ListingSound(after, list, IndexedDirectories, i);
  }

  /** A storage directory built from a non-empty directory path is not one `index` walks. */
  lemma SubdirectoryStorageIsNotIndexed(fileType: Field, directoryPath: Field)
    requires !PhpEmpty(InputOr(directoryPath, ""))
    ensures StorageDirectory(fileType, directoryPath) !in IndexedDirectories
  {
    var basePath := GetStoragePath(InputOr(fileType, "misc"));
    StoragePathIsIndexed(InputOr(fileType, "misc"));
    SubdirectoryIsNotIndexed(basePath, StorageDirectory(fileType, directoryPath));
  }

  /**
   * A file uploaded with a directory path that sanitizes to something lands
   * in a sub-directory of its category directory, which `index` does not
   * walk: it never appears in the listing. (A path that sanitizes to nothing,
   * such as `/`, gives a key with a doubled slash; see the README.)
   */
  lemma UploadIntoSubdirectoryIsNotListed(disk: Disk, req: UploadRequest, now: nat, token: Bytes, list: Bytes -> seq<Bytes>)
    requires FileRulePasses(req.file)
    requires !PhpEmpty(InputOr(req.directoryPath, ""))
    requires PathSanitizer.SanitizePath(InputOr(req.directoryPath, "")) != []
    requires '/' !in req.file.file.stem && '/' !in token && '/' !in req.file.file.extension
    requires ListsAll(disk[StoredPath(req, now, token) := StoredEntry(req, now)], list, IndexedDirectories)
    ensures var p := StoredPath(req, now, token);
      var l := Listing(disk[p := StoredEntry(req, now)], list, IndexedDirectories);
      forall i :: 0 <= i < |l| ==> l[i].path != p
  {
    var p := StoredPath(req, now, token);
    var after := disk[p := StoredEntry(req, now)];
    var directory := StorageDirectory(req.fileType, req.directoryPath);
    SubdirectoryStorageIsNotIndexed(req.fileType, req.directoryPath);
    var l := Listing(after, list, IndexedDirectories);
    forall i | 0 <= i < |l| ensures l[i].path != p {
      ListingSound(after, list, IndexedDirectories, i);
      var d :| d in IndexedDirectories && InDirectory(l[i].path, d);
      InDirectoryUnique(p, directory, d);
    }
  }

  /**
   * The record a valid upload answers with. Its `path` is the storage
   * directory, a slash and its `storedName`, and lies under the category
   * directory of its `fileType`; its `directoryPath` is the client's input
   * as given, of which only the sanitized form enters `path`. The file's
   * size and MIME type, the label (or `misc`) and the relative path (or the
   * empty string) are echoed unchanged.
   */
  function UploadedRecord(req: UploadRequest, now: nat, token: Bytes): (r: UploadRecord)
    requires FileRulePasses(req.file)
    ensures r.path == StoredPath(req, now, token)
    ensures r.path == StorageDirectory(req.fileType, req.directoryPath) + "/" + r.storedName
    ensures GetStoragePath(r.fileType) <= r.path
    ensures r.directoryPath == InputOr(req.directoryPath, "")
    ensures r.originalName == req.file.file.originalName && r.size <= MaxKilobytes * 1024
    ensures r.size == req.file.file.size && r.mimeType == req.file.file.mimeType
    ensures r.fileType == InputOr(req.fileType, "misc") && r.relativePath == InputOr(req.relativePath, "")
  {
    var f := req.file.file;
    var name := UniqueFilename(f.stem, now, token, f.extension);
    var path := StoredPath(req, now, token);
    var directory := StorageDirectory(req.fileType, req.directoryPath);
    assert GetStoragePath(InputOr(req.fileType, "misc")) <= directory <= path;
    UploadRecord(
      f.originalName, name, path, f.size, f.mimeType,
      InputOr(req.fileType, "misc"), InputOr(req.directoryPath, ""), InputOr(req.relativePath, ""))
  }

  class FileUploadController {
    /** The public disk: stored path to file attributes. */
    var disk: Disk

    constructor (initial: Disk)
      ensures disk == initial
    {
      disk := initial;
    }

    /**
     * `upload`: a request that fails validation is answered 422 and the disk
     * is untouched; a valid one writes exactly one file, at the stored path
     * of the record it answers with.
     */
    method Upload(req: UploadRequest, now: nat, token: Bytes) returns (resp: UploadResponse)
      modifies this
      ensures !UploadPassesValidation(req) ==> resp == UploadRejected && disk == old(disk)
      ensures UploadPassesValidation(req) ==>
        && resp == Uploaded(UploadedRecord(req, now, token))
        && disk == old(disk)[resp.data.path := StoredEntry(req, now)]
      ensures resp.Status() == (if UploadPassesValidation(req) then 200 else 422)
    {
      if !UploadPassesValidation(req) {
        return UploadRejected;
      }
      var file := req.file.file;
      var fileType := InputOr(req.fileType, "misc");
      var directoryPath := InputOr(req.directoryPath, "");
      var relativePath := InputOr(req.relativePath, "");

      var basePath := GetStoragePath(fileType);
      var storagePath;
      if !PhpEmpty(directoryPath) {
        var sanitizedPath := PathSanitizer.SanitizePath(directoryPath);
        storagePath := basePath + "/" + sanitizedPath;
      } else {
        storagePath := basePath;
      }

      assert storagePath == StorageDirectory(req.fileType, req.directoryPath);

      var uniqueFilename := file.stem + "_" + Decimal(now) + "_" + token + "." + file.extension;
      assert uniqueFilename == UniqueFilename(file.stem, now, token, file.extension);
      var path := storagePath + "/" + uniqueFilename;
      assert path == StoredPath(req, now, token);
      disk := disk[path := Entry(file.size, file.mimeType, now)];

      resp := Uploaded(UploadRecord(
        file.originalName, uniqueFilename, path, file.size, file.mimeType,
        fileType, directoryPath, relativePath));
    }

    /**
     * `index`: walks the category directories in their fixed order and, for
     * each one that exists, appends one record per file the driver lists.
     */
    method Index(list: Bytes -> seq<Bytes>) returns (files: seq<Listed>)
      requires ListsAll(disk, list, IndexedDirectories)
      ensures files == Listing(disk, list, IndexedDirectories)
    {
      files := ListDirectories(IndexedDirectories, list);
    }

    /** The loop of `index`, over any sequence of directories. */
    method ListDirectories(directories: seq<Bytes>, list: Bytes -> seq<Bytes>) returns (files: seq<Listed>)
      requires ListsAll(disk, list, directories)
      ensures files == Listing(disk, list, directories)
    {
      files := [];
      var i := 0;
      while i < |directories|
        invariant 0 <= i <= |directories|
        invariant ListsAll(disk, list, directories[..i])
        invariant files == Listing(disk, list, directories[..i])
      {
        var directory := directories[i];
        ListingStep(disk, list, directories, i);
        if Exists(disk, directory) {
          files := AppendRecords(files, list(directory));
        }
        i := i + 1;
      }
      assert directories[..i] == directories;
    }

    /** The inner loop of `index`: one record per listed file, in the listed order. */
    method AppendRecords(files: seq<Listed>, directoryFiles: seq<Bytes>) returns (extended: seq<Listed>)
      requires forall k :: k in directoryFiles ==> k in disk
      ensures extended == files + Records(disk, directoryFiles)
    {
      extended := files;
      var j := 0;
      while j < |directoryFiles|
        invariant 0 <= j <= |directoryFiles|
        invariant extended == files + Records(disk, directoryFiles[..j])
      {
        var file := directoryFiles[j];
        RecordsStep(disk, directoryFiles, j);
        extended := extended + [Listed(file, disk[file].size, disk[file].lastModified)];
        j := j + 1;
      }
      assert directoryFiles[..j] == directoryFiles;
    }

    /**
     * `delete`: a missing or blank `path` is answered 422, a path that names
     * neither a file nor a directory 404, both without change; otherwise the
     * file at that path, and nothing else, is removed. The path is used as
     * given, without sanitizing.
     */
    method Delete(path: Field) returns (resp: DeleteResponse)
      modifies this
      ensures !RequiredStringPasses(path) ==> resp == DeleteRejected && disk == old(disk)
      ensures RequiredStringPasses(path) && !Exists(old(disk), path.value) ==>
        resp == FileNotFound && disk == old(disk)
      ensures RequiredStringPasses(path) && Exists(old(disk), path.value) ==>
        resp == FileDeleted && disk == old(disk) - {path.value}
      ensures resp.Status() ==
        (if !RequiredStringPasses(path) then 422 else if Exists(old(disk), path.value) then 200 else 404)
    {
      if !RequiredStringPasses(path) {
        return DeleteRejected;
      }
      var p := path.value;
      if Exists(disk, p) {
        disk := disk - {p};
        return FileDeleted;
      }
      return FileNotFound;
    }
  }
}
