# async-uploader: FileUploadController

A Dafny model of `FileUploadController`, the Laravel controller that stores
asynchronously uploaded files on the `public` disk, lists them and deletes
them. The model covers:

- the request validation each action performs;
- `sanitizePath`, which cleans the client's `directory_path`;
- `getStoragePath`, which maps a `file_type` label to a category directory;
- how `upload` builds the storage directory and the unique stored file name;
- the effect of `upload`, `index` and `delete` on the disk.

Strings are byte strings (`seq<Byte>`), as in PHP. The public disk is a map
from stored path to the file's size, MIME type and modification time.
Directories are not stored: a directory exists when some file lies under it.

Modules:

- `PhpStrings`: the PHP built-ins used here: `str_replace`, `trim`, `empty` and integer-to-string.
- `PathSanitizer`: `sanitizePath`.
- `StoragePaths`: the category table and the directories `index` walks.
- `UploadRequests`: the request inputs, the validation rules, and the storage directory and file name of an upload.
- `PublicDisk`: the disk, `Storage::exists`, and the listing `index` produces, as a function.
- `Controller`: the class `FileUploadController`, whose `disk` field the three actions read and update.

The clock (`time()`) and the unique token (`uniqid()`) are parameters of
`Upload`. The order in which the storage driver lists one directory is a
parameter of `Index`. It is constrained to list exactly the files lying
directly in that directory, each once.

## Model

| member | source | states |
|---|---|---|
| `PhpStrings.StrReplace` | FileUploadController.php:112 | `str_replace` is one left-to-right pass. A deletion never lengthens the subject. Every output byte comes from the subject or the replacement. |
| `PhpStrings.StrReplaceAbsent` | FileUploadController.php:112 | A subject that does not contain the first byte of the search string is returned unchanged. |
| `PhpStrings.StrReplaceByte` | FileUploadController.php:118 | Replacing one byte by one byte is a byte-wise map: the same length, the search byte replaced everywhere, every other byte kept. |
| `PhpStrings.StrReplaceDeleteKeepsOthers` | FileUploadController.php:112 | Deleting a search string removes only bytes of that string. Every other byte survives, in order. |
| `PhpStrings.WithoutAppend` | FileUploadController.php:112 | Removing a set of bytes distributes over concatenation. |
| `PhpStrings.WithoutOnlyRemoved` | FileUploadController.php:112 | A string made only of removed bytes leaves nothing. |
| `PhpStrings.LTrim` | FileUploadController.php:115 | Drops exactly the longest prefix of trimmed bytes. The result is a suffix of the input. |
| `PhpStrings.RTrim` | FileUploadController.php:115 | Drops exactly the longest suffix of trimmed bytes. The result is a prefix of the input. |
| `PhpStrings.Trim` | FileUploadController.php:115 | The result is no longer than the input and neither starts nor ends with a trimmed byte. |
| `PhpStrings.LTrimOnlyRemoves` | FileUploadController.php:115 | Left trimming removes trimmed bytes only. |
| `PhpStrings.RTrimOnlyRemoves` | FileUploadController.php:115 | Right trimming removes trimmed bytes only. |
| `PhpStrings.TrimOnlyRemoves` | FileUploadController.php:115 | Trimming removes trimmed bytes only. Every other byte survives, in order. |
| `PhpStrings.TrimUnchanged` | FileUploadController.php:115 | A string that neither starts nor ends with a trimmed byte is unchanged. |
| `PhpStrings.TrimBlank` | FileUploadController.php:200 | Trimming leaves nothing exactly when every byte is trimmed. Both directions are proved. This is the blank test of `required`. |
| `PhpStrings.PhpEmpty` | FileUploadController.php:45 | Defines PHP's `empty()` on a string: true for `""` and for `"0"`. |
| `PhpStrings.DigitByte` | FileUploadController.php:57 | A decimal digit below 10 becomes the ASCII digit with that value. |
| `PhpStrings.Decimal` | FileUploadController.php:57 | The decimal form of `time()` in the file name is non-empty and made of digits only. |
| `PhpStrings.DecimalRoundTrip` | FileUploadController.php:57 | Reading the decimal form back gives the number. |
| `PhpStrings.DecimalInjective` | FileUploadController.php:57 | Different timestamps have different decimal forms. |
| `PathSanitizer.StripTraversal` | FileUploadController.php:112 | The traversal rewrite never lengthens the path. |
| `PathSanitizer.StripTraversalKeepsOthers` | FileUploadController.php:112 | The traversal rewrite deletes only dots, slashes and backslashes. All other bytes survive, in order. |
| `PathSanitizer.SinglePassLeavesTraversal` | FileUploadController.php:111-112 | After the first rewrite, a path of four dots and two slashes (`....//`) becomes `../`: its first two dots and its last slash. The single pass rebuilds a traversal sequence. |
| `PathSanitizer.ReplaceUnsafe` | FileUploadController.php:121 | Keeps the length. Each byte of `[a-zA-Z0-9/_-]` is kept and every other byte becomes `_`, so the result has only safe bytes. |
| `PathSanitizer.IsSafeByte` | FileUploadController.php:121 | Defines the byte class `[a-zA-Z0-9/_-]` that the last rewrite keeps: ASCII letters, digits, `/`, `_` and `-`. Every other byte is replaced. |
| `PathSanitizer.SanitizePath` | FileUploadController.php:109-124 | The result is no longer than the input. It holds only bytes of `[a-zA-Z0-9/_-]`, so neither `.` nor `\` nor any `..` segment. It neither starts nor ends with `/`. |
| `PathSanitizer.SanitizeKeepsCleanPath` | FileUploadController.php:109-124 | A path of safe bytes that neither starts nor ends with `/` is returned unchanged. |
| `PathSanitizer.SanitizeIdempotent` | FileUploadController.php:109-124 | Sanitizing a sanitized path changes nothing. |
| `PathSanitizer.TrimOneTrailingSeparator` | FileUploadController.php:115 | A string with one trailing separator and none leading loses exactly that separator to the trim. |
| `PathSanitizer.SanitizeReconstructedTraversal` | FileUploadController.php:109-124 | A path of four dots and two slashes (`....//`) sanitizes to `__`. The rebuilt `..` is neutralised by the last rewrite. |
| `PathSanitizer.SanitizeLeadingTraversal` | FileUploadController.php:109-124 | `../../etc/passwd` sanitizes to `etc/passwd`. |
| `PathSanitizer.SanitizeSeparatorsOnly` | FileUploadController.php:109-124 | `/` sanitizes to the empty path. |
| `StoragePaths.GetStoragePath` | FileUploadController.php:132-146 | Total. Each of the eight labels maps to `uploads/<label>`. Every other string, the empty one included, maps to `uploads/misc`. |
| `StoragePaths.PathTableKeys` | FileUploadController.php:134-143 | The table has an entry for exactly the eight labels. |
| `StoragePaths.PathTableValues` | FileUploadController.php:134-143 | Each table entry maps its label to `uploads/<label>`. |
| `StoragePaths.PathTableByCategory` | FileUploadController.php:134-143 | Both facts about the table together: exactly the eight labels, each mapped to `uploads/<label>`. |
| `StoragePaths.IndexedDirectoriesMatchTable` | FileUploadController.php:159-168 | The directories `index` walks are, in order, the storage paths of the eight labels. |
| `StoragePaths.StoragePathIsIndexed` | FileUploadController.php:132-168 | Whatever the label, its category directory is one that `index` walks. |
| `StoragePaths.CategoriesAreWords` | FileUploadController.php:134-143 | Every label is a lower-case ASCII word. |
| `StoragePaths.IndexedDirectoriesShape` | FileUploadController.php:159-168 | Every indexed directory is `uploads/` followed by a lower-case word. |
| `StoragePaths.SubdirectoryIsNotIndexed` | FileUploadController.php:159-168 | A category directory followed by `/` and more is not an indexed directory. |
| `StoragePaths.IndexedDirectoriesDistinct` | FileUploadController.php:159-168 | The indexed directories are pairwise distinct. |
| `UploadRequests.FileRulePasses` | FileUploadController.php:21 | Defines the rules `required`, `file` and `max:102400` as: an uploaded file is attached, the upload succeeded, and its size is at most 102400 KiB. |
| `UploadRequests.OptionalStringPasses` | FileUploadController.php:22-24 | Defines the rules `sometimes` and `string` as: the input is absent or a string. |
| `UploadRequests.UploadPassesValidation` | FileUploadController.php:20-27 | Defines when `upload`'s validator passes: the file rule and the three optional-string rules all hold. Otherwise `Upload` answers 422. |
| `UploadRequests.RequiredStringPasses` | FileUploadController.php:199-203 | Defines the rules `required` and `string` as: a string that is not blank after PHP's default trim. Otherwise `Delete` answers 422. |
| `UploadRequests.InputOr` | FileUploadController.php:37-39 | Defines `$request->input($name, $default)`: the string given, or the default when the input is absent. |
| `UploadRequests.ComposeStoragePath` | FileUploadController.php:44-51 | The category directory is a prefix of the result. The result equals it exactly when the directory path is empty in PHP's sense (`""` or `"0"`). Otherwise the directory is followed by `/` and safe bytes. |
| `UploadRequests.Subdirectory` | FileUploadController.php:48 | Concatenating a base, `/` and a sub-path gives a result from which the base, the slash and the sub-path can each be read back, at fixed positions. |
| `UploadRequests.ZeroDirectoryIsIgnored` | FileUploadController.php:45 | A directory path of `"0"` is ignored, because `empty("0")` holds. |
| `UploadRequests.SeparatorOnlyDirectoryEndsInSlash` | FileUploadController.php:45-48 | A directory path of `/` is not empty but sanitizes to nothing, so the storage path ends in `/`. |
| `UploadRequests.StorageDirectory` | FileUploadController.php:37-51 | With the `misc` and `""` defaults applied, the result lies under the label's category directory and holds no `.` and no `\`. |
| `UploadRequests.ImagesWithoutDirectory` | FileUploadController.php:37-51 | `file_type=images` with no directory path stores into `uploads/images`. |
| `UploadRequests.UnknownCategoryFallsBack` | FileUploadController.php:37-42 | An unknown label and a missing one both store into `uploads/misc`. |
| `UploadRequests.CategoryDirectoryIsPlain` | FileUploadController.php:134-143 | No category directory holds `.` or `\`. |
| `UploadRequests.UniqueFilename` | FileUploadController.php:57 | The length of the stored name is the sum of its parts' lengths plus three separators. |
| `UploadRequests.UniqueFilenameParts` | FileUploadController.php:57 | The stored name splits back into stem, `_`, timestamp, `_`, token, `.` and extension. |
| `UploadRequests.DistinctUploadsGetDistinctNames` | FileUploadController.php:57 | For tokens of one length, a different time or a different token gives a different stored name. |
| `UploadRequests.UniqueFilenameHasNoSlash` | FileUploadController.php:54-57 | The stored name holds no `/` when the stem, token and extension hold none. |
| `PublicDisk.InDirectory` | FileUploadController.php:173 | Defines "directly inside" for the non-recursive `Storage::files`: the directory, a slash, then a name holding no further slash. |
| `PublicDisk.Exists` | FileUploadController.php:172 | Defines `Storage::exists`: a stored file of that name, or a directory under which some file is stored. |
| `PublicDisk.ListsDirectory` | FileUploadController.php:173 | Defines what `Storage::files` may return: exactly the stored files lying directly in the directory, each once, in an order the driver chooses. |
| `PublicDisk.Listing` | FileUploadController.php:171-183 | Defines the reference listing `Index` is proved equal to: the directories in order, each existing one contributing the records of its files. Its properties are `ListingSound`, `ListingComplete` and `ListingDistinct`. |
| `PublicDisk.LastSlash` | FileUploadController.php:173 | For a file lying directly in a directory, the slash after the directory is the path's last slash. |
| `PublicDisk.InDirectoryUnique` | FileUploadController.php:173 | A file lies directly in exactly one directory. |
| `PublicDisk.InDirectoryMakesDirectory` | FileUploadController.php:172 | A directory holding a file exists. |
| `PublicDisk.Records` | FileUploadController.php:174-181 | One record per path, in order, with the size and modification time the disk holds. |
| `PublicDisk.ListingStep` | FileUploadController.php:171-183 | The listing of one more directory appends that directory's records, or nothing when it does not exist. |
| `PublicDisk.RecordsStep` | FileUploadController.php:174-181 | The records of one more path append that path's record. |
| `PublicDisk.ListingSound` | FileUploadController.php:171-183 | Every listed record is a stored file lying directly in one of the walked directories, with the disk's size and modification time. |
| `PublicDisk.ListingComplete` | FileUploadController.php:171-183 | Every stored file lying directly in a walked directory is listed. |
| `PublicDisk.ListingDistinct` | FileUploadController.php:171-183 | When the walked directories are distinct, no file is listed twice. |
| `Controller.UploadResponse.Status` | FileUploadController.php:28-92 | Defines the status of an upload response: 422 for a rejected request (line 32), 200 for a stored file (line 92). |
| `Controller.DeleteResponse.Status` | FileUploadController.php:204-226 | Defines the status of a delete response: 422 for a rejected request (line 208), 200, the default, for a deleted path (lines 217-220), 404 for a path not found (line 226). |
| `Controller.StoredPath` | FileUploadController.php:44-60 | The stored path lies directly in the storage directory when the stem, token and extension hold no `/`. |
| `Controller.StoredEntry` | FileUploadController.php:60-64 | The written entry is at most 100 MiB and was modified at upload time. |
| `Controller.StoredPathUnderUploads` | FileUploadController.php:42-60 | Every stored path starts with `uploads/`. |
| `Controller.DeleteUndoesUpload` | FileUploadController.php:199-215 | The path an upload answers with passes the required-string rule and exists afterwards. Deleting it restores the disk from before the upload, when nothing was stored there before. |
| `Controller.UploadIsListed` | FileUploadController.php:171-183 | An upload with no directory path, whose name and token hold no `/`, appears in the next listing with its size and upload time. |
| `Controller.SubdirectoryStorageIsNotIndexed` | FileUploadController.php:45-51 | A storage directory built from a non-empty directory path is not one of the directories `index` walks. |
| `Controller.UploadIntoSubdirectoryIsNotListed` | FileUploadController.php:171-183 | An upload whose directory path sanitizes to a non-empty path never appears in the listing, because `index` does not descend into sub-directories. A directory path that sanitizes to nothing (`/`, `\`, `../`) is excluded: it gives a doubled-slash key, which the real driver collapses into the category directory, so that file is listed. |
| `Controller.UploadedRecord` | FileUploadController.php:78-91 | The record's `path` is the storage directory, a slash and its `storedName`, and lies under the category directory of its `fileType`. Its `directoryPath` is the client's raw input, of which only the sanitized form enters `path`. It echoes the original name, the file's size (within the 100 MiB limit) and MIME type, the `file_type` input or `misc`, and the `relative_path` input or `""`. |
| `Controller.FileUploadController.constructor` | FileUploadController.php:9 | The controller starts on the given disk. |
| `Controller.FileUploadController.Upload` | FileUploadController.php:17-92 | A request failing validation gets 422 and leaves the disk unchanged. A valid one gets 200 with the record, and exactly one entry is written, at the record's path. |
| `Controller.FileUploadController.Index` | FileUploadController.php:153-189 | The returned files are the listing of the eight directories in their fixed order, each in the driver's order. |
| `Controller.FileUploadController.ListDirectories` | FileUploadController.php:170-183 | The outer loop over any directory sequence yields exactly the listing of those directories. |
| `Controller.FileUploadController.AppendRecords` | FileUploadController.php:173-181 | The inner loop appends exactly one record per listed file, in order. |
| `Controller.FileUploadController.Delete` | FileUploadController.php:197-226 | A missing, non-string or blank `path` gets 422 with no change. A path that is neither a file nor a directory gets 404 with no change. Otherwise the answer is 200 and only that key is removed. `Delete` itself states the status code of each case. |

## Left out

- The exception branches, which answer 500, are not modelled (`upload` at FileUploadController.php:94-100, `delete` at 228-234). They are never taken in the model.
- `Storage::url` and the `url` fields of the responses are not modelled.
- The JSON bodies (`success`, `message`, validation `errors`) are not modelled. Only the status code and the data are.
- The commented-out database persistence is not modelled. Neither is `routes.php`, which maps URLs to the three actions.
- Framework middleware is not modelled. In particular, Laravel turns empty strings into `null` before validation. Inputs reach the model as the controller receives them.
- `getClientOriginalName`, `getClientOriginalExtension`, `pathinfo`, `getSize` and `getMimeType` are not computed. They are fields of the uploaded file.
- `Controller.UploadIntoSubdirectoryIsNotListed` requires the directory path to sanitize to a non-empty path. When it sanitizes to nothing, the model's key has a doubled slash, while the real driver stores the file directly in the category directory and `index` lists it. That case is not captured, because path normalisation is not modelled.
- `storeAs` returns `trim($dir.'/'.$name, '/')`, and the model uses `dir + "/" + name` without the trim. The two agree for every stored path here: the storage directory starts with `uploads/`, and the name ends in the client extension, which holds no `/`.
- Path normalisation by the storage layer is not modelled. The disk key is the path `upload` returns, so a doubled slash (from a directory path that sanitizes to nothing) is kept, where the real driver would collapse it. `Delete` likewise looks the client's `path` up as given. The real driver first rewrites a leading `/`, a `\` or a `./` segment, so `/uploads/misc/x` deletes an existing `uploads/misc/x` where the model answers 404; and a `..` that climbs past the root throws, which answers 500 where the model answers 404.
- `Controller.FileUploadController.Delete`: deleting a directory name answers 200 but removes no file. Removal of whole directories is not modelled, and neither is the driver's refusal to delete a directory.
- Empty directories are not represented. A directory exists only while a file lies under it.
- `Controller.FileUploadController.Index`: the order in which the driver lists one directory is a parameter, not computed.
- The modification time `index` reports is the one the disk holds. The model writes the upload's `time()` there; the file system's own clock is not modelled.
