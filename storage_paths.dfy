/**
 * The fixed category layout: `getStoragePath`, which maps a `file_type`
 * label to its base directory on the public disk, and the list of
 * directories that `index` walks.
 */
module StoragePaths {
  import opened PhpStrings

  /** The eight category labels, in the order the table declares them. */
  const Categories: seq<Bytes> :=
    ["images", "videos", "audio", "documents", "spreadsheets", "presentations", "text", "misc"]

  /** The lookup table of `getStoragePath`. */
  const PathTable: map<Bytes, Bytes> := map[
    "images" := "uploads/images",
    "videos" := "uploads/videos",
    "audio" := "uploads/audio",
    "documents" := "uploads/documents",
    "spreadsheets" := "uploads/spreadsheets",
    "presentations" := "uploads/presentations",
    "text" := "uploads/text",
    "misc" := "uploads/misc"
  ]

  /** The directory for any label that is not in the table. */
  const FallbackPath: Bytes := "uploads/misc"

  /** The directories `index` lists, in the order it lists them. */
  const IndexedDirectories: seq<Bytes> := [
    "uploads/images",
    "uploads/videos",
    "uploads/audio",
    "uploads/documents",
    "uploads/spreadsheets",
    "uploads/presentations",
    "uploads/text",
    "uploads/misc"
  ]

  /**
   * `getStoragePath`: total; a known label goes to `uploads/<label>`, every
   * other string (the empty one included) to `uploads/misc`.
   */
  function GetStoragePath(fileType: Bytes): (r: Bytes)
    ensures fileType in Categories ==> r == "uploads/" + fileType
    ensures fileType !in Categories ==> r == "uploads/misc"
  {
    PathTableByCategory();
    if fileType in PathTable then PathTable[fileType] else FallbackPath
  }

  /** The table has one entry per label, mapping it to `uploads/<label>`. */
  lemma PathTableByCategory()
    ensures forall c :: c in PathTable <==> c in Categories
    ensures forall c :: c in PathTable ==> PathTable[c] == "uploads/" + c
  {
    PathTableKeys();
    PathTableValues();
  }

  lemma PathTableKeys()
    ensures forall c :: c in PathTable <==> c in Categories
  {
  }

  lemma PathTableValues()
    ensures forall c :: c in PathTable ==> PathTable[c] == "uploads/" + c
  {
  }

  /** A lower-case ASCII word: what every category label is. */
  predicate IsLowerWord(s: Bytes)
  {
    s != [] && forall i :: 0 <= i < |s| ==> 'a' <= s[i] <= 'z'
  }

  /** The shape of a category directory: `uploads/` followed by a lower-case word. */
  predicate IsCategoryDirectory(d: Bytes)
  {
    |d| > 8 && d[..8] == "uploads/" && IsLowerWord(d[8..])
  }

  /** The directories of `index` are exactly the storage paths of the labels, label by label. */
  lemma IndexedDirectoriesMatchTable()
    ensures |IndexedDirectories| == |Categories|
    ensures forall i :: 0 <= i < |Categories| ==> IndexedDirectories[i] == GetStoragePath(Categories[i])
  {
  }

  /** Whatever the label, the directory an upload goes to is one that `index` walks. */
  lemma StoragePathIsIndexed(fileType: Bytes)
    ensures GetStoragePath(fileType) in IndexedDirectories
  {
  }

  /** Every category label is a lower-case word. */
  lemma CategoriesAreWords()
    ensures forall i :: 0 <= i < |Categories| ==> IsLowerWord(Categories[i])
  {
    assert IsLowerWord("images");
    assert IsLowerWord("videos");
    assert IsLowerWord("audio");
    assert IsLowerWord("documents");
    assert IsLowerWord("spreadsheets");
    assert IsLowerWord("presentations");
    assert IsLowerWord("text");
    assert IsLowerWord("misc");
  }

  /** Every directory of `index` is `uploads/` followed by a lower-case word. */
  lemma IndexedDirectoriesShape()
    ensures forall i :: 0 <= i < |IndexedDirectories| ==> IsCategoryDirectory(IndexedDirectories[i])
  {
    CategoriesAreWords();
    forall i | 0 <= i < |IndexedDirectories| ensures IsCategoryDirectory(IndexedDirectories[i]) {
      var d, category := IndexedDirectories[i], Categories[i];
      assert d == "uploads/" + category;
      assert d[..8] == "uploads/" && d[8..] == category;
    }
  }

  /**
   * A sub-directory of a category directory, `<category>/<more>`, is not
   * itself one of the directories `index` walks.
   */
  lemma SubdirectoryIsNotIndexed(basePath: Bytes, directory: Bytes)
    requires basePath in IndexedDirectories
    requires basePath <= directory && |directory| > |basePath| && directory[|basePath|] == '/'
    ensures directory !in IndexedDirectories
  {
    IndexedDirectoriesShape();
    assert IsCategoryDirectory(basePath);
    forall i | 0 <= i < |IndexedDirectories| ensures IndexedDirectories[i] != directory {
      var d := IndexedDirectories[i];
      if |d| > |basePath| {
        assert 'a' <= d[8..][|basePath| - 8] <= 'z';
      }
    }
  }

  /** The directories of `index` are pairwise distinct, so no directory is listed twice. */
  lemma IndexedDirectoriesDistinct()
    ensures forall i, j :: 0 <= i < j < |IndexedDirectories| ==> IndexedDirectories[i] != IndexedDirectories[j]
  {
    forall i, j | 0 <= i < j < |IndexedDirectories|
      ensures IndexedDirectories[i] != IndexedDirectories[j]
    {
      var a, b := IndexedDirectories[i], IndexedDirectories[j];
      assert a[8] != b[8] || a[9] != b[9];
    }
  }
}
