/**
 * The `public` storage disk as the controller sees it: a map from stored
 * path to file attributes. Directories are not stored; a directory exists
 * when some file lies under it. This module also gives the listing that
 * `index` builds, as a function of the disk, with its properties.
 */
module PublicDisk {
  import opened PhpStrings

  /** What the disk knows of a stored file. */
  datatype Entry = Entry(size: nat, mimeType: Bytes, lastModified: nat)

  type Disk = map<Bytes, Entry>

  /** One element of the `files` array that `index` returns. */
  datatype Listed = Listed(path: Bytes, size: nat, modified: nat)

  /** `path` names a file directly inside `dir`: `dir`, a slash, then a name without slash. */
  predicate InDirectory(path: Bytes, dir: Bytes)
  {
    |path| > |dir| + 1 && path[..|dir| + 1] == dir + "/" && '/' !in path[|dir| + 1..]
  }

  /** Some file lies under `dir`, at any depth. */
  predicate IsDirectory(disk: Disk, dir: Bytes)
  {
    exists k :: k in disk && dir + "/" <= k
  }

  /** `Storage::exists`: a file or a directory by that name. */
  predicate Exists(disk: Disk, path: Bytes)
  {
    path in disk || IsDirectory(disk, path)
  }

  /** The slash after the directory is the last slash of the path. */
  lemma LastSlash(path: Bytes, dir: Bytes)
    requires InDirectory(path, dir)
    ensures path[|dir|] == '/'
    ensures forall j :: |dir| < j < |path| ==> path[j] != '/'
  {
    assert path[|dir|] == path[..|dir| + 1][|dir|];
    forall j | |dir| < j < |path| ensures path[j] != '/' {
      assert path[j] == path[|dir| + 1..][j - |dir| - 1];
    }
  }

  /** A file has exactly one directory it lies directly in. */
  lemma InDirectoryUnique(path: Bytes, dir: Bytes, other: Bytes)
    requires InDirectory(path, dir)
    ensures InDirectory(path, other) <==> other == dir
  {
    LastSlash(path, dir);
    if InDirectory(path, other) {
      LastSlash(path, other);
      assert |other| == |dir|;
      assert other == (other + "/")[..|other|] == (dir + "/")[..|dir|] == dir;
    }
  }

  /** A file directly inside `dir` makes `dir` exist. */
  lemma InDirectoryMakesDirectory(disk: Disk, path: Bytes, dir: Bytes)
    requires path in disk && InDirectory(path, dir)
    ensures Exists(disk, dir)
  {
    assert dir + "/" <= path;
  }

  /**
   * `names` is what `Storage::files(dir)` may return: every file directly
   * inside `dir`, once each, in an order the storage driver decides.
   */
  ghost predicate ListsDirectory(disk: Disk, dir: Bytes, names: seq<Bytes>)
  {
    && (forall k :: k in names <==> k in disk && InDirectory(k, dir))
    && (forall i, j :: 0 <= i < j < |names| ==> names[i] != names[j])
  }

  /** The driver's listing is faithful for every directory of `dirs`. */
  ghost predicate ListsAll(disk: Disk, list: Bytes -> seq<Bytes>, dirs: seq<Bytes>)
  {
    forall d :: d in dirs ==> ListsDirectory(disk, d, list(d))
  }

  /** One record per path, with the size and modification time the disk reports. */
  function Records(disk: Disk, paths: seq<Bytes>): (r: seq<Listed>)
    requires forall k :: k in paths ==> k in disk
    ensures |r| == |paths|
    ensures forall i :: 0 <= i < |paths| ==>
      r[i] == Listed(paths[i], disk[paths[i]].size, disk[paths[i]].lastModified)
  {
    if paths == [] then []
    else
      var last := paths[|paths| - 1];
      Records(disk, paths[..|paths| - 1]) + [Listed(last, disk[last].size, disk[last].lastModified)]
  }

  /**
   * The listing `index` builds: the directories in the given order, each
   * that exists contributing the records of its files in the driver's order.
   */
  function Listing(disk: Disk, list: Bytes -> seq<Bytes>, dirs: seq<Bytes>): seq<Listed>
    requires ListsAll(disk, list, dirs)
    decreases |dirs|
  {
    if dirs == [] then []
    else
      var d := dirs[|dirs| - 1];
      assert dirs == dirs[..|dirs| - 1] + [d];
      Listing(disk, list, dirs[..|dirs| - 1]) + (if Exists(disk, d) then Records(disk, list(d)) else [])
  }

  /** The listing of a prefix of the directories extends by one directory at a time. */
  lemma ListingStep(disk: Disk, list: Bytes -> seq<Bytes>, dirs: seq<Bytes>, i: nat)
    requires ListsAll(disk, list, dirs)
    requires i < |dirs|
    ensures ListsAll(disk, list, dirs[..i]) && ListsAll(disk, list, dirs[..i + 1])
    ensures Listing(disk, list, dirs[..i + 1]) ==
      Listing(disk, list, dirs[..i]) + (if Exists(disk, dirs[i]) then Records(disk, list(dirs[i])) else [])
  {
    assert dirs[..i + 1][..i] == dirs[..i];
  }

  /** The records of a prefix of the paths extend by one path at a time. */
  lemma RecordsStep(disk: Disk, paths: seq<Bytes>, j: nat)
    requires forall k :: k in paths ==> k in disk
    requires j < |paths|
    ensures forall k :: k in paths[..j + 1] ==> k in disk
    ensures Records(disk, paths[..j + 1]) ==
      Records(disk, paths[..j]) + [Listed(paths[j], disk[paths[j]].size, disk[paths[j]].lastModified)]
  {
    assert paths[..j + 1][..j] == paths[..j];
  }

  /**
   * Every listed record is a stored file, lying directly in one of the
   * directories, with the size and modification time the disk holds for it.
   */
  lemma {:induction false} ListingSound(disk: Disk, list: Bytes -> seq<Bytes>, dirs: seq<Bytes>, p: nat)
    requires ListsAll(disk, list, dirs)
    requires p < |Listing(disk, list, dirs)|
    ensures var e := Listing(disk, list, dirs)[p];
      && e.path in disk
      && e.size == disk[e.path].size
      && e.modified == disk[e.path].lastModified
      && exists d :: d in dirs && InDirectory(e.path, d)
    decreases |dirs|
  {
    var d := dirs[|dirs| - 1];
    var init := dirs[..|dirs| - 1];
    assert dirs == init + [d];
    var front := Listing(disk, list, init);
    if p < |front| {
      ListingSound(disk, list, init, p);
      var e := front[p];
      var d' :| d' in init && InDirectory(e.path, d');
      assert d' in dirs;
    } else {
      var names := list(d);
      var e := Records(disk, names)[p - |front|];
      assert e.path == names[p - |front|];
      assert e.path in names;
    }
  }

  /** Every file lying directly in one of the directories is listed. */
  lemma {:induction false} ListingComplete(disk: Disk, list: Bytes -> seq<Bytes>, dirs: seq<Bytes>, dir: Bytes, path: Bytes)
    requires ListsAll(disk, list, dirs)
    requires dir in dirs && path in disk && InDirectory(path, dir)
    ensures exists p :: 0 <= p < |Listing(disk, list, dirs)| && Listing(disk, list, dirs)[p].path == path
    decreases |dirs|
  {
    var d := dirs[|dirs| - 1];
    var init := dirs[..|dirs| - 1];
    assert dirs == init + [d];
    var front := Listing(disk, list, init);
    if dir == d {
      InDirectoryMakesDirectory(disk, path, dir);
      var names := list(d);
      assert path in names;
      var j :| 0 <= j < |names| && names[j] == path;
      assert Listing(disk, list, dirs)[|front| + j].path == path;
    } else {
      assert dir in init;
      ListingComplete(disk, list, init, dir, path);
      var p :| 0 <= p < |front| && front[p].path == path;
      assert Listing(disk, list, dirs)[p] == front[p];
    }
  }

  /** No path occurs in two records. */
  predicate DistinctPaths(l: seq<Listed>)
  {
    forall p, q :: 0 <= p < q < |l| ==> l[p].path != l[q].path
  }

  /** With distinct directories, no file is listed twice. */
  lemma {:induction false} ListingDistinct(disk: Disk, list: Bytes -> seq<Bytes>, dirs: seq<Bytes>)
    requires ListsAll(disk, list, dirs)
    requires forall i, j :: 0 <= i < j < |dirs| ==> dirs[i] != dirs[j]
    ensures DistinctPaths(Listing(disk, list, dirs))
    decreases |dirs|
  {
    if dirs != [] {
      var d := dirs[|dirs| - 1];
      var init := dirs[..|dirs| - 1];
      assert dirs == init + [d];
      ListingDistinct(disk, list, init);
      var front := Listing(disk, list, init);
      var l := Listing(disk, list, dirs);
      assert d in dirs;
      assert l == front + (if Exists(disk, d) then Records(disk, list(d)) else []);
      forall p, q | 0 <= p < q < |l| ensures l[p].path != l[q].path {
        if q >= |front| && p < |front| {
          var names := list(d);
          assert l[q].path == names[q - |front|];
          ListingSound(disk, list, init, p);
          var d' :| d' in init && InDirectory(front[p].path, d');
          assert d' != d by {
            var k :| 0 <= k < |init| && init[k] == d';
            assert dirs[k] == d' && dirs[|dirs| - 1] == d;
          }
          assert names[q - |front|] in names;
          InDirectoryUnique(front[p].path, d', d);
        } else if p >= |front| {
          var names := list(d);
          assert ListsDirectory(disk, d, names);
          assert l[p].path == names[p - |front|];
          assert l[q].path == names[q - |front|];
        } else {
          assert l[p] == front[p] && l[q] == front[q];
        }
      }
    }
  }
}
