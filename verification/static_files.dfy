/**
 * The path check `send_from_directory` makes before it serves a file from
 * a directory. The caller has already normalised the file name the way
 * `posixpath.normpath` does; a name that still starts at the root or
 * climbs out of the directory is refused with "not found".
 */
module StaticFiles {
  import opened Text

  datatype Lookup = NotFound | Accepted(filename: string)

  function StartsWith(s: string, prefix: string): bool {
    prefix <= s
  }

  /**
   * The rejection test `filename.startswith(('/', '../'))`. Stated over the
   * `/`-separated segments: a name is refused exactly when it has more than
   * one segment and its first segment is empty (an absolute path) or `..`.
   */
  function CheckFilename(normalized: string): (r: Lookup)
    ensures r.Accepted? ==> r.filename == normalized
    ensures r.NotFound? <==>
      |Split(normalized, '/')| > 1 &&
      (Split(normalized, '/')[0] == "" || Split(normalized, '/')[0] == "..")
  {
    RejectedPrefixes(normalized);
    if StartsWith(normalized, "/") || StartsWith(normalized, "../") then NotFound
    else Accepted(normalized)
  }

  /** The two refused prefixes, read as a statement about the first segment. */
  lemma RejectedPrefixes(p: string)
    ensures StartsWith(p, "/") || StartsWith(p, "../") <==>
      |Split(p, '/')| > 1 && (Split(p, '/')[0] == "" || Split(p, '/')[0] == "..")
  {
    var segs := Split(p, '/');
    FirstPart(p, '/');
    JoinSplit(p, '/');
    assert |segs| == 1 ==> segs[0] == p;
    if StartsWith(p, "/") {
      assert |segs[0]| == 0;
    }
    if StartsWith(p, "../") {
      assert p[0] == '.' && p[1] == '.' && p[2] == '/';
      assert |segs[0]| <= 2;
      assert segs[0] == p[..2];
    }
  }

  /**
   * What `posixpath.normpath` can return for a relative name: `.`, or
   * non-empty segments other than `.` in which every `..` comes before
   * every other segment. Absolute results start with `/`.
   */
  predicate Normalized(p: string) {
    var segs := Split(p, '/');
    (|p| > 0 && p[0] == '/') ||
    p == "." ||
    ((forall i :: 0 <= i < |segs| ==> segs[i] != "" && segs[i] != ".") &&
     (forall i, j :: 0 <= i < j < |segs| && segs[j] == ".." ==> segs[i] == ".."))
  }

  /**
   * A normalised name that passes the check contains no `..` segment at
   * all, except the bare name `..` (which the check lets through).
   */
  lemma AcceptedHasNoParentStep(p: string)
    requires Normalized(p)
    requires CheckFilename(p).Accepted?
    ensures p != ".." ==> forall i :: 0 <= i < |Split(p, '/')| ==> Split(p, '/')[i] != ".."
  {
    var segs := Split(p, '/');
    JoinSplit(p, '/');
    FirstPart(p, '/');
    assert |segs| == 1 ==> segs[0] == p;
    if p == "." {
      SplitNoSep(p, '/');
    }
  }

  /** The bare name `..` is not refused by the check. */
  lemma ParentNameIsAccepted()
    ensures Normalized("..") && CheckFilename("..") == Accepted("..")
  {
    SplitNoSep("..", '/');
  }
}
