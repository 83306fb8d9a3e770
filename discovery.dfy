/**
 * `get_files_by_extensions_glob`: the files of one directory whose names end
 * with one of the accepted extensions. The directory listing (`os.listdir`)
 * is an input, in the order the operating system gives it.
 */
module Discovery {
  import opened Text
  import opened Paths

  /** `any(name.endswith(ext) for ext in extensions)`. */
  predicate EndsWithAny(name: string, extensions: seq<string>) {
    exists ext :: ext in extensions && EndsWith(name, ext)
  }

  /** With a single accepted extension, a name is accepted exactly when it ends with that extension. */
  lemma EndsWithOnly(name: string, ext: string)
    ensures EndsWithAny(name, [ext]) <==> EndsWith(name, ext)
  {
    if EndsWithAny(name, [ext]) {
      var e :| e in [ext] && EndsWith(name, e);
    } else {
      assert ext in [ext];
    }
  }

  /** The joined paths of the listed names that end with an accepted extension, in listing order. */
  function Matching(directory: string, listing: seq<string>, extensions: seq<string>): (paths: seq<string>)
    ensures |paths| <= |listing|
  {
    if listing == [] then []
    else
      var name := listing[|listing| - 1];
      var earlier := Matching(directory, listing[..|listing| - 1], extensions);
      if EndsWithAny(name, extensions) then earlier + [Join(directory, name)] else earlier
  }

  /** The loop of `get_files_by_extensions_glob`: one pass over the listing, appending each accepted file. */
  method GetFilesByExtensions(directory: string, listing: seq<string>, extensions: seq<string>)
    returns (fileList: seq<string>)
    ensures fileList == Matching(directory, listing, extensions)
  {
    fileList := [];
    for i := 0 to |listing|
      invariant fileList == Matching(directory, listing[..i], extensions)
    {
      var filename := listing[i];
      assert listing[..i + 1][..i] == listing[..i];
      if EndsWithAny(filename, extensions) {
        fileList := fileList + [Join(directory, filename)];
      }
    }
    assert listing[..|listing|] == listing;
  }

  /** `path` is the join of the listed name at index `i`, and that name ends with an accepted extension. */
  ghost predicate AcceptedAt(directory: string, listing: seq<string>, extensions: seq<string>, i: int, path: string) {
    0 <= i < |listing| && EndsWithAny(listing[i], extensions) && path == Join(directory, listing[i])
  }

  /** A path is returned exactly when it is the join of some listed name that ends with an accepted extension. */
  lemma MatchingMembership(directory: string, listing: seq<string>, extensions: seq<string>, path: string)
    ensures path in Matching(directory, listing, extensions) <==>
      exists i :: AcceptedAt(directory, listing, extensions, i, path)
  {
    if path in Matching(directory, listing, extensions) {
      MatchingSound(directory, listing, extensions, path);
    }
    if exists i :: AcceptedAt(directory, listing, extensions, i, path) {
      var i :| AcceptedAt(directory, listing, extensions, i, path);
      MatchingComplete(directory, listing, extensions, i, path);
    }
  }

  /** Every returned path is the join of a listed name that ends with an accepted extension. */
  lemma {:induction false} MatchingSound(directory: string, listing: seq<string>, extensions: seq<string>, path: string)
    requires path in Matching(directory, listing, extensions)
    ensures exists i :: AcceptedAt(directory, listing, extensions, i, path)
  {
    var n := |listing| - 1;
    var front := listing[..n];
    var earlier := Matching(directory, front, extensions);
    var kept := EndsWithAny(listing[n], extensions);
    assert Matching(directory, listing, extensions) == if kept then earlier + [Join(directory, listing[n])] else earlier;
    if path in earlier {
      MatchingSound(directory, front, extensions, path);
      var i :| AcceptedAt(directory, front, extensions, i, path);
      assert front[i] == listing[i];
      assert AcceptedAt(directory, listing, extensions, i, path);
    } else {
      assert AcceptedAt(directory, listing, extensions, n, path);
    }
  }

  /** The join of every listed name that ends with an accepted extension is returned. */
  lemma {:induction false} MatchingComplete(directory: string, listing: seq<string>, extensions: seq<string>, i: int, path: string)
    requires AcceptedAt(directory, listing, extensions, i, path)
    ensures path in Matching(directory, listing, extensions)
  {
    var n := |listing| - 1;
    var front := listing[..n];
    var earlier := Matching(directory, front, extensions);
    var kept := EndsWithAny(listing[n], extensions);
    assert Matching(directory, listing, extensions) == if kept then earlier + [Join(directory, listing[n])] else earlier;
    if i < n {
      assert front[i] == listing[i];
      MatchingComplete(directory, front, extensions, i, path);
    } else {
      assert i == n;
    }
  }

  /** For a listing of relative names, every returned path lies in the searched directory. */
  lemma MatchingInDirectory(directory: string, listing: seq<string>, extensions: seq<string>, path: string)
    requires forall name :: name in listing ==> !StartsWith(name, "/")
    requires path in Matching(directory, listing, extensions)
    ensures StartsWith(path, directory)
  {
    MatchingSound(directory, listing, extensions, path);
    var i :| AcceptedAt(directory, listing, extensions, i, path);
    assert listing[i] in listing;
  }

  /** The result follows the listing: filtering a listing in two parts gives the two results one after the other. */
  lemma {:induction false} MatchingAppend(directory: string, front: seq<string>, back: seq<string>, extensions: seq<string>)
    ensures Matching(directory, front + back, extensions)
         == Matching(directory, front, extensions) + Matching(directory, back, extensions)
  {
    if back != [] {
      var n := |back| - 1;
      MatchingAppend(directory, front, back[..n], extensions);
      assert (front + back)[..|front + back| - 1] == front + back[..n];
    } else {
      assert front + back == front;
    }
  }

  /** With no accepted extension nothing is returned. */
  lemma {:induction false} MatchingNoExtensions(directory: string, listing: seq<string>)
    ensures Matching(directory, listing, []) == []
  {
    if listing != [] {
      MatchingNoExtensions(directory, listing[..|listing| - 1]);
    }
  }

  /** Every returned path itself ends with an accepted extension. */
  lemma MatchingEndsWithExtension(directory: string, listing: seq<string>, extensions: seq<string>, path: string)
    requires path in Matching(directory, listing, extensions)
    ensures EndsWithAny(path, extensions)
  {
    MatchingSound(directory, listing, extensions, path);
    var i :| AcceptedAt(directory, listing, extensions, i, path);
    var ext :| ext in extensions && EndsWith(listing[i], ext);
    assert path[|path| - |listing[i]|..] == listing[i];
    assert path[|path| - |ext|..] == listing[i][|listing[i]| - |ext|..];
  }
}
