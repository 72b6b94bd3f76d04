/**
 * The Filer in-browser file system, abstracted as a map from absolute path to
 * bytes plus a set of directory paths.
 *
 * Each primitive (writeFile, unlink, rmdir, mkdir, readdir, readFile) is given
 * as an effect function on a `Store` value: the new store and what the call
 * reports to its callback. A primitive fails for the reasons Filer itself
 * gives (a missing parent directory, a path that is not a file, a directory
 * that is not empty, an existing path) or because the caller's `Faults`
 * record says that this call on this path fails (an I/O error the model
 * does not explain). The class `FileSystem` is the shared `fs` object whose
 * methods apply those effects in place.
 */
module Filer {
  import opened Wrappers
  import opened Strings

  type Path = string
  type Bytes = seq<bv8>

  const Root: Path := "/"

  datatype Store = Store(files: map<Path, Bytes>, dirs: set<Path>)

  /** For each primitive, the paths on which a call fails with an injected I/O error. */
  datatype Faults = Faults(
    write: set<Path>,
    unlink: set<Path>,
    readdir: set<Path>,
    mkdir: set<Path>,
    rmdir: set<Path>)

  /** The error codes mkdir reports (the only primitive whose caller inspects the code). */
  datatype ErrorCode = EEXIST | ENOENT | EIO

  predicate Distinct<T(==)>(s: seq<T>) {
    forall i, j :: 0 <= i < j < |s| ==> s[i] != s[j]
  }

  /** The set of the elements of a sequence. */
  function Elements<T>(s: seq<T>): set<T> {
    set x | x in s
  }

  /** `${dir}/${name}`: the path both workers build for an entry of a directory. */
  function Join(dir: Path, name: string): Path {
    dir + "/" + name
  }

  /** Different names give different paths in one directory. */
  lemma JoinInjective(dir: Path, a: string, b: string)
    ensures Join(dir, a) == Join(dir, b) ==> a == b
  {
    assert Join(dir, a)[|dir| + 1..] == a;
    assert Join(dir, b)[|dir| + 1..] == b;
  }

  /** The directory holding `p`: the text before its last '/', or the root. */
  function Parent(p: Path): Path {
    var k := LastIndexOf(p, '/');
    if k <= 0 then Root else p[..k]
  }

  /** The entry name of `p` inside its parent: the text after its last '/'. */
  function Name(p: Path): string {
    p[LastIndexOf(p, '/') + 1..]
  }

  /** Joining a directory and a slash-free name gives a path with that parent and name. */
  lemma ParentOfJoin(d: Path, n: string)
    requires d != "" && '/' !in n
    ensures Parent(Join(d, n)) == d && Name(Join(d, n)) == n
  {
    var p := Join(d, n);
    var k := LastIndexOf(p, '/');
    assert p[|d|] == '/';
    assert forall j :: |d| < j < |p| ==> p[j] == n[j - |d| - 1];
    assert k == |d|;
    assert p[..k] == d;
  }

  /** A path below a directory other than the root is that directory, '/', and its name. */
  lemma JoinOfParent(p: Path)
    requires Parent(p) != Root
    ensures p == Join(Parent(p), Name(p)) && '/' !in Name(p)
  {
    var k := LastIndexOf(p, '/');
    assert p == p[..k] + [p[k]] + p[k + 1..];
  }

  /**
   * The store is a tree: the root is a directory, no path is both a file and a
   * directory, and every file and every directory but the root sits in a
   * directory.
   */
  ghost predicate Wellformed(s: Store) {
    && Root in s.dirs
    && (forall p :: p in s.files ==> p !in s.dirs && Parent(p) in s.dirs)
    && (forall d :: d in s.dirs && d != Root ==> Parent(d) in s.dirs)
  }

  predicate IsChild(p: Path, d: Path) {
    p != Root && Parent(p) == d
  }

  /** The files and directories directly inside `d`. */
  function ChildPaths(s: Store, d: Path): set<Path> {
    set p | p in s.files.Keys + s.dirs && IsChild(p, d)
  }

  /** The names readdir reports for `d`. */
  function Entries(s: Store, d: Path): set<string> {
    set p | p in ChildPaths(s, d) :: Name(p)
  }

  /** A directory has no entry names exactly when it has no children. */
  lemma EntriesEmpty(s: Store, d: Path)
    ensures Entries(s, d) == {} <==> ChildPaths(s, d) == {}
  {
    forall c | c in ChildPaths(s, d)
      ensures Name(c) in Entries(s, d)
    {
    }
  }

  /** readFile: the bytes at `p`, or nothing (ENOENT, or EISDIR for a directory). */
  function ReadFile(s: Store, p: Path): Option<Bytes> {
    if p in s.files then Some(s.files[p]) else None
  }

  predicate CanWrite(s: Store, p: Path, faults: Faults) {
    Parent(p) in s.dirs && p !in s.dirs && p !in faults.write
  }

  /** writeFile: overwrites or creates the file at `p` when its directory exists. */
  function WriteEffect(s: Store, p: Path, data: Bytes, faults: Faults): (Store, bool) {
    if CanWrite(s, p, faults) then (Store(s.files[p := data], s.dirs), true) else (s, false)
  }

  predicate CanUnlink(s: Store, p: Path, faults: Faults) {
    p in s.files && p !in faults.unlink
  }

  /** unlink: deletes the file at `p`; a missing path or a directory is an error. */
  function UnlinkEffect(s: Store, p: Path, faults: Faults): (Store, bool) {
    if CanUnlink(s, p, faults) then (Store(s.files - {p}, s.dirs), true) else (s, false)
  }

  predicate CanRmdir(s: Store, d: Path, faults: Faults) {
    d in s.dirs && d != Root && ChildPaths(s, d) == {} && d !in faults.rmdir
  }

  /** rmdir: deletes the directory `d` only when it is empty. */
  function RmdirEffect(s: Store, d: Path, faults: Faults): (Store, bool) {
    if CanRmdir(s, d, faults) then (Store(s.files, s.dirs - {d}), true) else (s, false)
  }

  /** mkdir: EEXIST for an existing path, ENOENT without a parent directory. */
  function MkdirEffect(s: Store, d: Path, faults: Faults): (Store, Option<ErrorCode>) {
    if d in s.files || d in s.dirs then (s, Some(EEXIST))
    else if Parent(d) !in s.dirs then (s, Some(ENOENT))
    else if d in faults.mkdir then (s, Some(EIO))
    else (Store(s.files, s.dirs + {d}), None)
  }

  predicate CanReadDir(s: Store, d: Path, faults: Faults) {
    d in s.dirs && d !in faults.readdir
  }

  /** Every primitive keeps the store a tree. */
  lemma PrimitivesPreserveWellformed(s: Store, p: Path, data: Bytes, faults: Faults)
    requires Wellformed(s)
    ensures Wellformed(WriteEffect(s, p, data, faults).0)
    ensures Wellformed(UnlinkEffect(s, p, faults).0)
    ensures Wellformed(RmdirEffect(s, p, faults).0)
    ensures Wellformed(MkdirEffect(s, p, faults).0)
  {
    if CanRmdir(s, p, faults) {
      forall q | q in s.files.Keys + s.dirs && q != Root
        ensures Parent(q) != p
      {
        assert q !in ChildPaths(s, p);
      }
    }
  }

  /** Deleting any set of files keeps the store a tree. */
  lemma DeletingFilesPreservesWellformed(s: Store, gone: set<Path>)
    requires Wellformed(s)
    ensures Wellformed(Store(s.files - gone, s.dirs))
  {
  }

  /**
   * In a tree, a directory with no children has no descendants at all: no
   * file or directory lies anywhere below `d + "/"`.
   */
  lemma {:induction false} NoDescendants(s: Store, d: Path, p: Path)
    requires Wellformed(s) && d != "" && d != Root
    requires ChildPaths(s, d) == {}
    requires StartsWith(p, d + "/")
    ensures p !in s.files && p !in s.dirs
    decreases |p|
  {
    var k := LastIndexOf(p, '/');
    assert p[|d|] == '/';
    assert k >= |d| > 0;
    assert p != Root && Parent(p) == p[..k];
    if k == |d| {
      assert Parent(p) == d;
      assert p !in ChildPaths(s, d);
    } else {
      assert StartsWith(p[..k], d + "/");
      NoDescendants(s, d, p[..k]);
    }
  }

  /** A path that is not a directory has no children in a tree. */
  lemma AbsentDirectoryHasNoChildren(s: Store, d: Path)
    requires Wellformed(s) && d !in s.dirs
    ensures ChildPaths(s, d) == {}
  {
    forall q | q in s.files.Keys + s.dirs && q != Root
      ensures Parent(q) != d
    {
    }
  }

  /** The shared `fs` object: a mutable `Store`. */
  class FileSystem {
    var files: map<Path, Bytes>
    var dirs: set<Path>

    function State(): Store
      reads this
    {
      Store(files, dirs)
    }

    ghost predicate Valid()
      reads this
    {
      Wellformed(State())
    }

    /** A new file system holds only its root directory. */
    constructor ()
      ensures Valid() && State() == Store(map[], {Root})
    {
      files := map[];
      dirs := {Root};
    }

    method WriteFile(p: Path, data: Bytes, faults: Faults) returns (ok: bool)
      requires Valid()
      modifies this
      ensures Valid()
      ensures (State(), ok) == WriteEffect(old(State()), p, data, faults)
    {
      PrimitivesPreserveWellformed(State(), p, data, faults);
      ok := CanWrite(State(), p, faults);
      if ok {
        files := files[p := data];
      }
    }

    method Unlink(p: Path, faults: Faults) returns (ok: bool)
      requires Valid()
      modifies this
      ensures Valid()
      ensures (State(), ok) == UnlinkEffect(old(State()), p, faults)
    {
      PrimitivesPreserveWellformed(State(), p, [], faults);
      ok := CanUnlink(State(), p, faults);
      if ok {
        files := files - {p};
      }
    }

    method Rmdir(d: Path, faults: Faults) returns (ok: bool)
      requires Valid()
      modifies this
      ensures Valid()
      ensures (State(), ok) == RmdirEffect(old(State()), d, faults)
    {
      PrimitivesPreserveWellformed(State(), d, [], faults);
      ok := CanRmdir(State(), d, faults);
      if ok {
        dirs := dirs - {d};
      }
    }

    method Mkdir(d: Path, faults: Faults) returns (err: Option<ErrorCode>)
      requires Valid()
      modifies this
      ensures Valid()
      ensures (State(), err) == MkdirEffect(old(State()), d, faults)
    {
      PrimitivesPreserveWellformed(State(), d, [], faults);
      if d in files || d in dirs {
        err := Some(EEXIST);
      } else if Parent(d) !in dirs {
        err := Some(ENOENT);
      } else if d in faults.mkdir {
        err := Some(EIO);
      } else {
        dirs := dirs + {d};
        err := None;
      }
    }

    /** readdir: the names of the entries of `d`, each once, in an order the model leaves open. */
    method ReadDir(d: Path, faults: Faults) returns (r: Option<seq<string>>)
      ensures r.Some? <==> CanReadDir(State(), d, faults)
      ensures r.Some? ==> Distinct(r.value)
      ensures r.Some? ==> forall n :: n in r.value <==> n in Entries(State(), d)
    {
      if !CanReadDir(State(), d, faults) {
        return None;
      }
      var all := Entries(State(), d);
      var pending := all;
      var names: seq<string> := [];
      while pending != {}
        invariant pending <= all
        invariant Distinct(names)
        invariant forall n :: n in names <==> n in all && n !in pending
        decreases pending
      {
        var n :| n in pending;
        names := names + [n];
        pending := pending - {n};
      }
      return Some(names);
    }
  }
}
