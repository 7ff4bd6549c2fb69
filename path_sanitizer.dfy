/**
 * `FileUploadController::sanitizePath`: the four whole-string rewrites that
 * turn a client-supplied `directory_path` into the relative path appended to
 * a category directory.
 *
 * The first rewrite alone does not remove traversal: it deletes `../` and
 * `..\` in one left-to-right pass, so `....//` becomes `../`. What closes the
 * hole is the last rewrite, which turns every `.` into `_`; the lemmas below
 * show that no `.` and no `\` survives the whole pipeline.
 */
module PathSanitizer {
  import opened PhpStrings

  /** The bytes trimmed from both ends of the path: slash and backslash. */
  const Separators: set<Byte> := {'/', '\\'}

  /** The bytes the final rewrite keeps: the class `[a-zA-Z0-9/_-]`. */
  predicate IsSafeByte(b: Byte)
  {
    ('a' <= b <= 'z') || ('A' <= b <= 'Z') || ('0' <= b <= '9') || b == '/' || b == '_' || b == '-'
  }

  /** Every byte of `s` is in the kept class. */
  predicate AllSafe(s: Bytes)
  {
    forall i :: 0 <= i < |s| ==> IsSafeByte(s[i])
  }

  /**
   * First rewrite: `str_replace(['../', '..\'], '', $path)`, which deletes
   * every `../` in one pass and then every `..\` in one pass over the result.
   */
  function StripTraversal(path: Bytes): (r: Bytes)
    ensures |r| <= |path|
  {
    StrReplace(StrReplace(path, "../", ""), "..\\", "")
  }

  /** The first rewrite deletes only dots, slashes and backslashes; every other byte survives in order. */
  lemma StripTraversalKeepsOthers(path: Bytes)
    ensures Without(StripTraversal(path), {'.', '/', '\\'}) == Without(path, {'.', '/', '\\'})
  {
    var cs: set<Byte> := {'.', '/', '\\'};
    var once := StrReplace(path, "../", "");
    StrReplaceDeleteKeepsOthers(path, "../", cs);
    StrReplaceDeleteKeepsOthers(once, "..\\", cs);
  }

  /**
   * Last rewrite: `preg_replace('/[^a-zA-Z0-9\/_\-]/', '_', $path)` without
   * the `u` flag, so it works byte by byte: a byte of the kept class stays,
   * every other byte becomes `_`.
   */
  function ReplaceUnsafe(s: Bytes): (r: Bytes)
    ensures |r| == |s|
    ensures AllSafe(r)
    ensures forall i :: 0 <= i < |s| && IsSafeByte(s[i]) ==> r[i] == s[i]
    ensures forall i :: 0 <= i < |s| && !IsSafeByte(s[i]) ==> r[i] == '_'
  {
    if s == [] then []
    else [if IsSafeByte(s[0]) then s[0] else '_'] + ReplaceUnsafe(s[1..])
  }

  /**
   * The whole sanitizer: strip traversal sequences, trim slashes and
   * backslashes from both ends, turn backslashes into slashes, and replace
   * every byte outside `[a-zA-Z0-9/_-]` by `_`.
   */
  function SanitizePath(path: Bytes): (r: Bytes)
    ensures |r| <= |path|
    ensures AllSafe(r)
    ensures '.' !in r && '\\' !in r
    ensures r != [] ==> r[0] != '/' && r[|r| - 1] != '/'
  {
    var stripped := StripTraversal(path);
    var trimmed := Trim(stripped, Separators);
    var slashed := StrReplace(trimmed, "\\", "/");
    StrReplaceByte(trimmed, "\\", "/");
    ReplaceUnsafe(slashed)
  }

  /**
   * A path made of kept bytes that does not start or end with a slash is
   * returned unchanged: no stage has anything to do on it.
   */
  lemma SanitizeKeepsCleanPath(path: Bytes)
    requires AllSafe(path)
    requires path != [] ==> path[0] != '/' && path[|path| - 1] != '/'
    ensures SanitizePath(path) == path
  {
    assert '.' !in path && '\\' !in path by {
      forall i | 0 <= i < |path| ensures path[i] != '.' && path[i] != '\\' {
        assert IsSafeByte(path[i]);
      }
    }
    StrReplaceAbsent(path, "../", "");
    StrReplaceAbsent(path, "..\\", "");
    assert StripTraversal(path) == path;
    TrimUnchanged(path, Separators);
    StrReplaceAbsent(path, "\\", "/");
    var r := ReplaceUnsafe(path);
    assert r == path;
  }

  /** Sanitizing twice gives the same path as sanitizing once. */
  lemma SanitizeIdempotent(path: Bytes)
    ensures SanitizePath(SanitizePath(path)) == SanitizePath(path)
  {
    SanitizeKeepsCleanPath(SanitizePath(path));
  }

  /** A string with one trailing separator and none leading loses just that separator to trimming. */
  lemma TrimOneTrailingSeparator(s: Bytes)
    requires |s| >= 2 && s[0] !in Separators
    requires s[|s| - 1] in Separators && s[|s| - 2] !in Separators
    ensures Trim(s, Separators) == s[..|s| - 1]
  {
    assert LTrim(s, Separators) == s;
    var init := s[..|s| - 1];
    assert RTrim(init, Separators) == init by {
      assert init[|init| - 1] == s[|s| - 2];
    }
  }

  /** A path of four dots and two slashes, such as `....//`. */
  predicate IsFourDotsTwoSlashes(path: Bytes)
  {
    |path| == 6 && (forall i :: 0 <= i < 4 ==> path[i] == '.') && path[4] == '/' && path[5] == '/'
  }

  /**
   * The single pass re-creates a traversal sequence: on `....//` it deletes
   * the `../` in the middle and leaves the first two dots and the last slash.
   */
  lemma SinglePassLeavesTraversal(path: Bytes)
    requires IsFourDotsTwoSlashes(path)
    ensures StripTraversal(path) == [path[0], path[1], path[5]] == "../"
  {
    var p1, p2 := path[1..], path[2..];
    assert path[..3][2] == '.' && p1[..3][2] == '.';
    assert p2[..3] == "../";
    assert StrReplace(p2, "../", "") == p2[3..];
    assert StrReplace(p1, "../", "") == [p1[0]] + p2[3..];
    var once := StrReplace(path, "../", "");
    assert once == [path[0], path[1], path[5]];
    assert once[..3][2] == '/';
    assert StrReplace(once, "..\\", "") == [once[0]] + once[1..];
  }

  /** `....//` is stripped to `../`, trimmed to `..`, and its dots become underscores. */
  lemma SanitizeReconstructedTraversal(path: Bytes)
    requires IsFourDotsTwoSlashes(path)
    ensures SanitizePath(path) == "__"
  {
    SinglePassLeavesTraversal(path);
    var leftover := StripTraversal(path);
    TrimOneTrailingSeparator(leftover);
    var dots := leftover[..2];
    StrReplaceAbsent(dots, "\\", "/");
    var r := ReplaceUnsafe(dots);
    assert !IsSafeByte(dots[0]) && !IsSafeByte(dots[1]);
    assert r == "__";
  }

  /** Leading traversal sequences are removed outright. */
  lemma SanitizeLeadingTraversal()
    ensures SanitizePath("../../etc/passwd") == "etc/passwd"
  {
    var rest: Bytes := "etc/passwd";
    var once: Bytes := "../" + rest;
    var s: Bytes := "../" + once;
    assert s == "../../etc/passwd";
    assert AllSafe(rest) && '.' !in rest by {
      forall i | 0 <= i < |rest| ensures IsSafeByte(rest[i]) && rest[i] != '.' {
        assert rest[i] in "etcpasswd/";
      }
    }
    StrReplaceAbsent(rest, "../", "");
    assert s[..3] == "../" && s[3..] == once;
    assert once[..3] == "../" && once[3..] == rest;
    assert StrReplace(once, "../", "") == rest;
    assert StrReplace(s, "../", "") == rest;
    StrReplaceAbsent(rest, "..\\", "");
    assert StripTraversal(s) == rest;
    SanitizeKeepsCleanPath(rest);
  }

  /** A directory path made only of separators sanitizes to the empty path. */
  lemma SanitizeSeparatorsOnly()
    ensures SanitizePath("/") == []
  {
    assert StrReplace("/", "../", "") == "/";
    assert StrReplace("/", "..\\", "") == "/";
  }
}
