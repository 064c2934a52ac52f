/** The part of the POSIX file system the local destination touches: a path
    string names the file reached by its non-empty `/`-separated components
    (repeated and trailing slashes collapse), and a directory listing is the
    set of final components of the files directly below it. */
module Paths {

  datatype Path = Path(absolute: bool, parts: seq<string>)

  predicate NoSlash(s: string) {
    forall i :: 0 <= i < |s| ==> s[i] != '/'
  }

  /** A single directory entry name. */
  predicate IsEntryName(s: string) {
    s != [] && NoSlash(s)
  }

  /** Index of the last '/' in `s`, or -1 when there is none. */
  function LastSlash(s: string): (k: int)
    ensures -1 <= k < |s|
    ensures k >= 0 ==> s[k] == '/'
    ensures forall j :: k < j < |s| ==> s[j] != '/'
  {
    if s == [] then -1
    else if s[|s| - 1] == '/' then |s| - 1
    else LastSlash(s[..|s| - 1])
  }

  /** The non-empty components of `s`, in order. */
  function Components(s: string): (cs: seq<string>)
    ensures forall i :: 0 <= i < |cs| ==> IsEntryName(cs[i])
    decreases |s|
  {
    if s == [] then []
    else
      var k := LastSlash(s);
      if k == |s| - 1 then Components(s[..k])
      else if k < 0 then [s]
      else Components(s[..k]) + [s[k + 1..]]
  }

  /** The file or directory a path string refers to: absolute exactly when
      the string starts with '/', and made of entry names only. */
  function Resolve(s: string): (p: Path)
    ensures p.absolute <==> s != [] && s[0] == '/'
    ensures forall i :: 0 <= i < |p.parts| ==> IsEntryName(p.parts[i])
  {
    Path(|s| > 0 && s[0] == '/', Components(s))
  }

  /** Appending an entry name right after a slash (or to nothing) adds
      exactly one component. */
  lemma AppendEntry(x: string, f: string)
    requires IsEntryName(f)
    requires x == [] || x[|x| - 1] == '/'
    ensures Components(x + f) == Components(x) + [f]
  {
    var s := x + f;
    var k := LastSlash(s);
    if x == [] {
      assert s == f;
      assert k < 0;
    } else {
      assert s[|x| - 1] == '/';
      assert k == |x| - 1;
      assert s[..k] == x[..|x| - 1];
      assert s[k + 1..] == f;
      assert LastSlash(x) == |x| - 1;
    }
  }

  /** A trailing slash does not change what a path refers to. */
  lemma TrailingSlash(x: string)
    ensures Components(x + "/") == Components(x)
  {
    var s := x + "/";
    assert s[..|s| - 1] == x;
  }

  /** `dir + '/' + f` is the entry `f` inside `dir`. */
  lemma JoinResolves(dir: string, f: string)
    requires dir != [] && IsEntryName(f)
    ensures Resolve(dir + "/" + f) == Path(Resolve(dir).absolute, Resolve(dir).parts + [f])
  {
    AppendEntry(dir + "/", f);
    TrailingSlash(dir);
    assert (dir + "/" + f)[0] == dir[0];
  }

  /** `os.listdir(dir)` filtered by `os.path.isfile`: names of the files
      directly below `dir`. */
  function ListDir(files: set<Path>, dir: string): (names: set<string>)
    ensures forall f :: f in names ==> Path(Resolve(dir).absolute, Resolve(dir).parts + [f]) in files
  {
    var d := Resolve(dir);
    var names := set p | p in files && p.absolute == d.absolute && |p.parts| == |d.parts| + 1
                                    && p.parts[..|d.parts|] == d.parts
                       :: p.parts[|d.parts|];
    assert forall f :: f in names ==> Path(d.absolute, d.parts + [f]) in files by {
      forall f | f in names
        ensures Path(d.absolute, d.parts + [f]) in files
      {
        var p :| p in files && p.absolute == d.absolute && |p.parts| == |d.parts| + 1
                 && p.parts[..|d.parts|] == d.parts && p.parts[|d.parts|] == f;
        assert p.parts == d.parts + [f];
      }
    }
    names
  }

  /** Every path a path string resolves to has entry-name components. */
  predicate WellFormed(files: set<Path>) {
    forall p, i :: p in files && 0 <= i < |p.parts| ==> IsEntryName(p.parts[i])
  }

  /** A file `dir + '/' + f` is listed under the name `f`. */
  lemma ListDirContains(files: set<Path>, dir: string, f: string)
    requires dir != [] && IsEntryName(f) && Resolve(dir + "/" + f) in files
    ensures f in ListDir(files, dir)
  {
    var d := Resolve(dir);
    JoinResolves(dir, f);
    var p := Resolve(dir + "/" + f);
    assert p.parts[..|d.parts|] == d.parts;
  }

  /** The listing holds exactly the entry names `f` for which
      `dir + '/' + f` is a file. */
  lemma ListDirExact(files: set<Path>, dir: string, f: string)
    requires dir != [] && WellFormed(files)
    ensures f in ListDir(files, dir) <==> IsEntryName(f) && Resolve(dir + "/" + f) in files
  {
    var d := Resolve(dir);
    if f in ListDir(files, dir) {
      var p :| p in files && p.absolute == d.absolute && |p.parts| == |d.parts| + 1
               && p.parts[..|d.parts|] == d.parts && p.parts[|d.parts|] == f;
      assert IsEntryName(f);
      JoinResolves(dir, f);
      assert p.parts == d.parts + [f];
    }
    if IsEntryName(f) && Resolve(dir + "/" + f) in files {
      ListDirContains(files, dir, f);
    }
  }

  /** ListDirExact for every name at once. */
  lemma ListDirIff(files: set<Path>, dir: string)
    requires dir != [] && WellFormed(files)
    ensures forall f :: f in ListDir(files, dir) <==> IsEntryName(f) && Resolve(dir + "/" + f) in files
  {
    forall f | true
      ensures f in ListDir(files, dir) <==> IsEntryName(f) && Resolve(dir + "/" + f) in files
    {
      ListDirExact(files, dir, f);
    }
  }

  /** Adding files never removes a name from a listing. */
  lemma ListDirMonotone(files: set<Path>, more: set<Path>, dir: string)
    requires files <= more
    ensures ListDir(files, dir) <= ListDir(more, dir)
  {
  }

  /** Listing a union of file sets lists each part. */
  lemma ListDirUnion(a: set<Path>, b: set<Path>, dir: string)
    ensures ListDir(a + b, dir) == ListDir(a, dir) + ListDir(b, dir)
  {
  }
}
