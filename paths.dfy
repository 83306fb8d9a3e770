/**
 * The `os.path` functions the OCR script calls, with POSIX semantics:
 * `/` is the only separator and `.` the extension separator.
 */
module Paths {
  import opened Text

  /** Some character of `path[lo..hi]` is not a `.` (the scan `splitext` makes past leading dots). */
  predicate HasNonDot(path: string, lo: int, hi: int)
    requires 0 <= lo <= hi <= |path|
    decreases hi - lo
  {
    lo < hi && (path[lo] != '.' || HasNonDot(path, lo + 1, hi))
  }

  /** The scan finds a non-dot character exactly when there is one. */
  lemma {:induction false} HasNonDotIff(path: string, lo: int, hi: int)
    requires 0 <= lo <= hi <= |path|
    ensures HasNonDot(path, lo, hi) <==> exists k :: lo <= k < hi && path[k] != '.'
    decreases hi - lo
  {
    if lo < hi {
      HasNonDotIff(path, lo + 1, hi);
    }
  }

  /**
   * `os.path.join(directory, name)`: an absolute `name` replaces the
   * directory; otherwise a `/` is put between them unless the directory is
   * empty or already ends with one.
   */
  function Join(directory: string, name: string): (path: string)
    ensures EndsWith(path, name)
    ensures !StartsWith(name, "/") ==>
      var head := path[..|path| - |name|];
      head == [] || head[|head| - 1] == '/'
    ensures !StartsWith(name, "/") ==>
      && StartsWith(path, directory)
      && (|path| == |directory| + |name| || |path| == |directory| + 1 + |name|)
  {
    if StartsWith(name, "/") then name
    else if directory == [] || EndsWith(directory, "/") then directory + name
    else directory + "/" + name
  }

  /** `os.path.basename(path)`: what follows the last `/` of `path`. */
  function Basename(path: string): (name: string)
    ensures '/' !in name
  {
    path[LastIndexOf(path, '/') + 1..]
  }

  /** The base name is the longest suffix of the path without a `/`: the whole path, or what follows a `/`. */
  lemma BasenameIsLastComponent(path: string)
    ensures EndsWith(path, Basename(path))
    ensures |Basename(path)| < |path| ==> path[|path| - |Basename(path)| - 1] == '/'
  {
  }

  /**
   * `os.path.splitext(path)`: the extension starts at the last `.` of the
   * last path component, unless everything before that `.` in the component
   * is dots (a leading dot does not start an extension).
   */
  function Splitext(path: string): (parts: (string, string))
    ensures parts.0 + parts.1 == path
    ensures parts.1 == [] || (parts.1[0] == '.' && '.' !in parts.1[1..] && '/' !in parts.1)
  {
    var sep := LastIndexOf(path, '/');
    var dot := LastIndexOf(path, '.');
    if sep < dot && HasNonDot(path, sep + 1, dot) then
      (path[..dot], path[dot..])
    else
      (path, [])
  }

  /** A name taken from a directory listing is given back by `basename` once joined to its directory. */
  lemma BasenameOfJoin(directory: string, name: string)
    requires '/' !in name
    ensures Basename(Join(directory, name)) == name
  {
    var path := Join(directory, name);
    var b := Basename(path);
    if name != [] {
      assert name[..1][0] != "/"[0];
    }
  }

  /** Splitting `stem + ext`, where `ext` is one dotted extension and `stem` is a plain file name that is not all dots, gives back the two parts. */
  lemma SplitextOfExtension(stem: string, ext: string)
    requires '/' !in stem && exists k :: 0 <= k < |stem| && stem[k] != '.'
    requires |ext| > 0 && ext[0] == '.' && '.' !in ext[1..] && '/' !in ext
    ensures Splitext(stem + ext) == (stem, ext)
  {
    var path := stem + ext;
    var dot := LastIndexOf(path, '.');
    var sep := LastIndexOf(path, '/');
    assert path[|stem|] == '.';
    var k :| 0 <= k < |stem| && stem[k] != '.';
    HasNonDotIff(path, sep + 1, dot);
  }

  /** A name whose only characters before its extension are dots has no extension: `splitext` leaves it whole. */
  lemma SplitextLeadingDots(dots: string, ext: string)
    requires forall k :: 0 <= k < |dots| ==> dots[k] == '.'
    requires |ext| > 0 && ext[0] == '.' && '.' !in ext[1..] && '/' !in ext
    ensures Splitext(dots + ext) == (dots + ext, [])
  {
    var path := dots + ext;
    var dot := LastIndexOf(path, '.');
    var sep := LastIndexOf(path, '/');
    assert path[|dots|] == '.';
    HasNonDotIff(path, sep + 1, dot);
  }
}
