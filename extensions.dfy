/**
 * The extension service worker (public/pages/internal/extensions/sw.js): it
 * unpacks an uploaded extension archive into /internal/extensions/<id>/,
 * removes such a directory again, and answers requests for
 * /internal/extensions/<id>/<path> from the store.
 */
module ExtensionWorker {
  import opened Wrappers
  import opened Strings
  import opened Filer
  import opened Responses

  const ExtensionsPrefix: Path := "/internal/extensions/"
  const ManifestFile: string := "manifest.json"

  /** `basePath` of an extension: /internal/extensions/<id>. */
  function ExtensionBase(id: string): Path {
    ExtensionsPrefix + id
  }

  // ---------------------------------------------------------------------------
  // Archives

  /** One entry of `zip.files`: a folder marker, or a file with its bytes. */
  datatype ZipEntry = ZipEntry(dir: bool, content: Bytes)

  /** The decoded archive: entry name to entry. */
  type Archive = map<string, ZipEntry>

  /**
   * What the archive decoder and the manifest parser make of the posted file:
   * no archive when the file is not a zip, no id when manifest.json does not
   * parse.
   */
  datatype Upload = Upload(archive: Option<Archive>, manifestId: Option<string>)

  predicate IsFileEntry(zip: Archive, name: string) {
    name in zip && !zip[name].dir
  }

  /** The archive decoded and holds a manifest.json file whose id parsed. */
  predicate Unpacked(upload: Upload) {
    upload.archive.Some? && IsFileEntry(upload.archive.value, ManifestFile) && upload.manifestId.Some?
  }

  /** The paths `${basePath}/${filename}` of the files among `names` whose write can succeed. */
  function WrittenPaths(s: Store, base: Path, zip: Archive, names: set<string>, faults: Faults): set<Path> {
    set name | name in names && IsFileEntry(zip, name) && CanWrite(s, Join(base, name), faults) :: Join(base, name)
  }

  /** The files among `names` whose write can succeed, at the paths they are written to. */
  function ArchiveWrites(s: Store, base: Path, zip: Archive, names: set<string>, faults: Faults): map<Path, Bytes> {
    map p | p in WrittenPaths(s, base, zip, names, faults) && |base| < |p| && IsFileEntry(zip, p[|base| + 1..])
      :: zip[p[|base| + 1..]].content
  }

  /** A file entry whose write can succeed is written with its bytes, and only such paths are written. */
  lemma ArchiveWritesAt(s: Store, base: Path, zip: Archive, names: set<string>, faults: Faults, name: string)
    ensures Join(base, name) in ArchiveWrites(s, base, zip, names, faults) <==>
      name in names && IsFileEntry(zip, name) && CanWrite(s, Join(base, name), faults)
    ensures Join(base, name) in ArchiveWrites(s, base, zip, names, faults) ==>
      ArchiveWrites(s, base, zip, names, faults)[Join(base, name)] == zip[name].content
  {
    assert Join(base, name)[|base| + 1..] == name;
    forall n | n in names && Join(base, n) == Join(base, name)
      ensures n == name
    {
      JoinInjective(base, n, name);
    }
  }

  predicate WritesSucceed(s: Store, base: Path, zip: Archive, names: set<string>, faults: Faults) {
    forall name :: name in names && IsFileEntry(zip, name) ==> CanWrite(s, Join(base, name), faults)
  }

  /**
   * installExtension: the new store and the reported success. Nothing is
   * written unless the archive unpacked; then every file entry's write is
   * attempted, and the result is true only if all of them succeeded.
   */
  function InstallEffect(s: Store, upload: Upload, faults: Faults): (Store, bool) {
    if !Unpacked(upload) then (s, false)
    else
      var zip := upload.archive.value;
      var base := ExtensionBase(upload.manifestId.value);
      (Store(s.files + ArchiveWrites(s, base, zip, zip.Keys, faults), s.dirs),
       WritesSucceed(s, base, zip, zip.Keys, faults))
  }

  /** Every path install writes is `${basePath}/${filename}` for some file name. */
  lemma ArchiveWritesKey(s: Store, base: Path, zip: Archive, names: set<string>, faults: Faults, p: Path)
    requires p in ArchiveWrites(s, base, zip, names, faults)
    ensures StartsWith(p, base + "/") && p == Join(base, p[|base| + 1..])
  {
    var name :| name in names && IsFileEntry(zip, name) && CanWrite(s, Join(base, name), faults) && Join(base, name) == p;
    assert p[|base| + 1..] == name;
    assert p[..|base| + 1] == base + "/";
  }

  lemma ArchiveWritesStep(s: Store, base: Path, zip: Archive, done: set<string>, name: string, faults: Faults)
    requires name !in done
    ensures ArchiveWrites(s, base, zip, done + {name}, faults) ==
      if IsFileEntry(zip, name) && CanWrite(s, Join(base, name), faults)
      then ArchiveWrites(s, base, zip, done, faults)[Join(base, name) := zip[name].content]
      else ArchiveWrites(s, base, zip, done, faults)
  {
    var a := ArchiveWrites(s, base, zip, done + {name}, faults);
    var b := ArchiveWrites(s, base, zip, done, faults);
    var c := if IsFileEntry(zip, name) && CanWrite(s, Join(base, name), faults)
      then b[Join(base, name) := zip[name].content] else b;
    ArchiveWritesAt(s, base, zip, done + {name}, faults, name);
    ArchiveWritesAt(s, base, zip, done, faults, name);
    forall p | p in a || p in c
      ensures p in a && p in c && a[p] == c[p]
    {
      if p in a {
        ArchiveWritesKey(s, base, zip, done + {name}, faults, p);
      } else if p in b {
        ArchiveWritesKey(s, base, zip, done, faults, p);
      }
      var n := p[|base| + 1..];
      JoinInjective(base, n, name);
      ArchiveWritesAt(s, base, zip, done + {name}, faults, n);
      ArchiveWritesAt(s, base, zip, done, faults, n);
    }
    assert a.Keys == c.Keys;
  }

  lemma UnionUpdate<K, V>(m: map<K, V>, b: map<K, V>, k: K, v: V)
    ensures (m + b)[k := v] == m + b[k := v]
  {
  }

  method InstallExtension(fs: FileSystem, upload: Upload, faults: Faults) returns (ok: bool)
    requires fs.Valid()
    modifies fs
    ensures fs.Valid()
    ensures (fs.State(), ok) == InstallEffect(old(fs.State()), upload, faults)
  {
    if !Unpacked(upload) {
      return false;
    }
    var zip := upload.archive.value;
    var base := ExtensionBase(upload.manifestId.value);
    ghost var s0 := fs.State();
    var pending := zip.Keys;
    ghost var done: set<string> := {};
    ok := true;
    assert WrittenPaths(s0, base, zip, done, faults) == {};
    assert ArchiveWrites(s0, base, zip, done, faults) == map[];
    while pending != {}
      invariant pending + done == zip.Keys && pending !! done
      invariant fs.Valid() && fs.dirs == s0.dirs
      invariant fs.files == s0.files + ArchiveWrites(s0, base, zip, done, faults)
      invariant ok == WritesSucceed(s0, base, zip, done, faults)
      decreases pending
    {
      var name :| name in pending;
      ArchiveWritesStep(s0, base, zip, done, name, faults);
      ghost var before := ArchiveWrites(s0, base, zip, done, faults);
      if !zip[name].dir {
        var path := Join(base, name);
        var written := fs.WriteFile(path, zip[name].content, faults);
        assert written == CanWrite(s0, path, faults);
        assert written ==> fs.files == (s0.files + before)[path := zip[name].content];
        UnionUpdate(s0.files, before, path, zip[name].content);
        ok := ok && written;
      }
      assert WritesSucceed(s0, base, zip, done + {name}, faults) ==
        (WritesSucceed(s0, base, zip, done, faults) && (IsFileEntry(zip, name) ==> CanWrite(s0, Join(base, name), faults)));
      pending := pending - {name};
      done := done + {name};
    }
  }

  /**
   * When the archive unpacks, every file entry whose write can succeed lands
   * with exactly its bytes (also when another write fails), and the result is
   * true exactly when every file entry's write succeeds.
   */
  lemma InstallWritesEveryEntry(s: Store, upload: Upload, faults: Faults)
    requires Unpacked(upload)
    ensures var (s', ok) := InstallEffect(s, upload, faults);
      var zip := upload.archive.value;
      var base := ExtensionBase(upload.manifestId.value);
      && (ok <==> forall name :: IsFileEntry(zip, name) ==> CanWrite(s, Join(base, name), faults))
      && (forall name :: IsFileEntry(zip, name) && CanWrite(s, Join(base, name), faults) ==>
            ReadFile(s', Join(base, name)) == Some(zip[name].content))
  {
  }

  /** A successful install stores every file of the archive, manifest.json included. */
  lemma InstallRoundTrip(s: Store, upload: Upload, faults: Faults)
    requires InstallEffect(s, upload, faults).1
    ensures Unpacked(upload)
    ensures forall name :: IsFileEntry(upload.archive.value, name) ==>
      ReadFile(InstallEffect(s, upload, faults).0, Join(ExtensionBase(upload.manifestId.value), name))
        == Some(upload.archive.value[name].content)
    ensures ReadFile(InstallEffect(s, upload, faults).0, Join(ExtensionBase(upload.manifestId.value), ManifestFile))
        == Some(upload.archive.value[ManifestFile].content)
  {
    InstallWritesEveryEntry(s, upload, faults);
  }

  /** An archive that does not unpack is rejected before any write. */
  lemma InstallRejectsBeforeWriting(s: Store, upload: Upload, faults: Faults)
    requires upload.archive.None? || !IsFileEntry(upload.archive.value, ManifestFile) || upload.manifestId.None?
    ensures InstallEffect(s, upload, faults) == (s, false)
  {
  }

  /**
   * Install is additive and stays inside its namespace: it adds or overwrites
   * files below /internal/extensions/<id>/ only, keeps every file it finds,
   * leaves every path that is not `<base>/<name>` of a file entry as it was
   * (files already there that the archive does not hold, folder entries'
   * paths), leaves a file entry whose write fails as it was, and creates no
   * directory.
   */
  lemma InstallOnlyTouchesNamespace(s: Store, upload: Upload, faults: Faults)
    requires Unpacked(upload)
    ensures var s' := InstallEffect(s, upload, faults).0;
      var base := ExtensionBase(upload.manifestId.value);
      var zip := upload.archive.value;
      && s'.dirs == s.dirs
      && s.files.Keys <= s'.files.Keys
      && (forall p :: !StartsWith(p, base + "/") ==> ReadFile(s', p) == ReadFile(s, p))
      && (forall p :: (forall n :: IsFileEntry(zip, n) ==> p != Join(base, n)) ==> ReadFile(s', p) == ReadFile(s, p))
      && (forall n :: IsFileEntry(zip, n) && !CanWrite(s, Join(base, n), faults) ==>
            ReadFile(s', Join(base, n)) == ReadFile(s, Join(base, n)))
      && (forall name :: name in zip && zip[name].dir ==> ReadFile(s', Join(base, name)) == ReadFile(s, Join(base, name)))
  {
    var base := ExtensionBase(upload.manifestId.value);
    var zip := upload.archive.value;
    var writes := ArchiveWrites(s, base, zip, zip.Keys, faults);
    forall p | (forall n :: IsFileEntry(zip, n) ==> p != Join(base, n))
      ensures p !in writes
    {
      if p in writes {
        ArchiveWritesKey(s, base, zip, zip.Keys, faults, p);
        ArchiveWritesAt(s, base, zip, zip.Keys, faults, p[|base| + 1..]);
      }
    }
    forall n | IsFileEntry(zip, n) && !CanWrite(s, Join(base, n), faults)
      ensures Join(base, n) !in writes
    {
      ArchiveWritesAt(s, base, zip, zip.Keys, faults, n);
    }
    forall name, n | name in zip && zip[name].dir && IsFileEntry(zip, n)
      ensures Join(base, n) != Join(base, name)
    {
      JoinInjective(base, n, name);
    }
  }

  /**
   * installExtension never creates /internal/extensions/<id>: when that
   * directory is absent, the write of manifest.json fails and so does the
   * install.
   */
  lemma InstallNeedsExistingDirectory(s: Store, upload: Upload, faults: Faults)
    requires Unpacked(upload) && ExtensionBase(upload.manifestId.value) !in s.dirs
    ensures !InstallEffect(s, upload, faults).1
  {
    ParentOfJoin(ExtensionBase(upload.manifestId.value), ManifestFile);
  }

  lemma InstallPreservesWellformed(s: Store, upload: Upload, faults: Faults)
    requires Wellformed(s)
    ensures Wellformed(InstallEffect(s, upload, faults).0)
  {
  }

  // ---------------------------------------------------------------------------
  // Removal

  /** The paths `${basePath}/${entry}` among `names` whose unlink succeeds. */
  function UnlinkedPaths(s: Store, base: Path, names: set<string>, faults: Faults): set<Path> {
    set name | name in names && CanUnlink(s, Join(base, name), faults) :: Join(base, name)
  }

  /**
   * removeExtension: the new store and the reported success. An unreadable
   * directory is a failure; an empty one is rmdir'ed and reported as removed
   * whatever rmdir says; otherwise every entry is unlinked, best effort, and
   * the result is that of the final rmdir.
   */
  function RemoveEffect(s: Store, id: string, faults: Faults): (Store, bool) {
    var base := ExtensionBase(id);
    if !CanReadDir(s, base, faults) then (s, false)
    else if Entries(s, base) == {} then (RmdirEffect(s, base, faults).0, true)
    else RmdirEffect(Store(s.files - UnlinkedPaths(s, base, Entries(s, base), faults), s.dirs), base, faults)
  }

  lemma UnlinkedPathsStep(s: Store, base: Path, done: set<string>, name: string, faults: Faults)
    requires name !in done
    ensures Join(base, name) !in UnlinkedPaths(s, base, done, faults)
    ensures UnlinkedPaths(s, base, done + {name}, faults) ==
      UnlinkedPaths(s, base, done, faults) + (if CanUnlink(s, Join(base, name), faults) then {Join(base, name)} else {})
  {
    forall n | n in done
      ensures Join(base, n) != Join(base, name)
    {
      JoinInjective(base, n, name);
    }
  }

  method RemoveExtension(fs: FileSystem, extensionId: string, faults: Faults) returns (ok: bool)
    requires fs.Valid()
    modifies fs
    ensures fs.Valid()
    ensures (fs.State(), ok) == RemoveEffect(old(fs.State()), extensionId, faults)
  {
    var base := ExtensionBase(extensionId);
    ghost var s0 := fs.State();
    var listing := fs.ReadDir(base, faults);
    if listing.None? {
      return false;
    }
    var entries := listing.value;
    if |entries| == 0 {
      assert Entries(s0, base) == {};
      EntriesEmpty(s0, base);
      var removed := fs.Rmdir(base, faults);
      return true;
    }
    assert entries[0] in Entries(s0, base);
    var i := 0;
    while i < |entries|
      invariant 0 <= i <= |entries|
      invariant fs.Valid() && fs.dirs == s0.dirs
      invariant fs.files == s0.files - UnlinkedPaths(s0, base, Elements(entries[..i]), faults)
    {
      ghost var done := Elements(entries[..i]);
      assert entries[i] !in done;
      assert entries[..i + 1] == entries[..i] + [entries[i]];
      assert Elements(entries[..i + 1]) == done + {entries[i]};
      UnlinkedPathsStep(s0, base, done, entries[i], faults);
      var unlinked := fs.Unlink(Join(base, entries[i]), faults);
      i := i + 1;
    }
    assert entries[..i] == entries;
    assert Elements(entries) == Entries(s0, base);
    ok := fs.Rmdir(base, faults);
  }

  /** Removing an extension whose directory cannot be read fails and changes nothing. */
  lemma RemoveUnreadable(s: Store, id: string, faults: Faults)
    requires !CanReadDir(s, ExtensionBase(id), faults)
    ensures RemoveEffect(s, id, faults) == (s, false)
  {
  }

  /** An empty extension directory is reported removed whatever rmdir reports. */
  lemma RemoveEmptyDirectory(s: Store, id: string, faults: Faults)
    requires CanReadDir(s, ExtensionBase(id), faults) && Entries(s, ExtensionBase(id)) == {}
    ensures var (s', ok) := RemoveEffect(s, id, faults);
      && ok
      && s'.files == s.files
      && (ExtensionBase(id) in s'.dirs <==> ExtensionBase(id) in faults.rmdir)
  {
    EntriesEmpty(s, ExtensionBase(id));
  }

  /**
   * Removing a non-empty extension directory succeeds exactly when every entry
   * is a file whose unlink succeeds and the final rmdir succeeds.
   */
  lemma RemoveResult(s: Store, id: string, faults: Faults)
    requires Wellformed(s)
    requires CanReadDir(s, ExtensionBase(id), faults) && Entries(s, ExtensionBase(id)) != {}
    ensures RemoveEffect(s, id, faults).1 <==>
      && ExtensionBase(id) !in faults.rmdir
      && forall name :: name in Entries(s, ExtensionBase(id)) ==> CanUnlink(s, Join(ExtensionBase(id), name), faults)
  {
    var base := ExtensionBase(id);
    var names := Entries(s, base);
    var gone := UnlinkedPaths(s, base, names, faults);
    var s1 := Store(s.files - gone, s.dirs);
    // Every child of base is `Join(base, its name)`, and every entry names a child.
    forall p | p in ChildPaths(s, base)
      ensures p == Join(base, Name(p)) && Name(p) in names
    {
      JoinOfParent(p);
    }
    forall name | name in names
      ensures Join(base, name) in ChildPaths(s, base)
    {
      var p :| p in ChildPaths(s, base) && Name(p) == name;
      JoinOfParent(p);
    }
    // A child survives the unlinks exactly when its unlink fails.
    forall p | p in ChildPaths(s, base)
      ensures p in ChildPaths(s1, base) <==> !CanUnlink(s, p, faults)
    {
      JoinOfParent(p);
      assert CanUnlink(s, p, faults) ==> Join(base, Name(p)) in gone;
    }
    assert ChildPaths(s1, base) <= ChildPaths(s, base);
    assert ChildPaths(s1, base) == {} <==> forall name :: name in names ==> CanUnlink(s, Join(base, name), faults);
  }

  /**
   * Unlinking is best effort: every entry whose unlink can succeed is gone
   * afterwards, whatever happens to the other entries and to the final rmdir.
   */
  lemma RemoveUnlinksEveryEntry(s: Store, id: string, faults: Faults)
    requires CanReadDir(s, ExtensionBase(id), faults)
    ensures forall name :: name in Entries(s, ExtensionBase(id)) && CanUnlink(s, Join(ExtensionBase(id), name), faults) ==>
      Join(ExtensionBase(id), name) !in RemoveEffect(s, id, faults).0.files
  {
  }

  /**
   * After a successful removal nothing is left below the extension's
   * directory, at any depth.
   */
  lemma RemoveLeavesNothing(s: Store, id: string, faults: Faults, p: Path)
    requires Wellformed(s) && RemoveEffect(s, id, faults).1
    requires StartsWith(p, ExtensionBase(id) + "/")
    ensures p !in RemoveEffect(s, id, faults).0.files && p !in RemoveEffect(s, id, faults).0.dirs
  {
    var base := ExtensionBase(id);
    var s' := RemoveEffect(s, id, faults).0;
    RemovePreservesWellformed(s, id, faults);
    if base in s'.dirs {
      assert Entries(s, base) == {};
      EntriesEmpty(s, base);
      assert s' == s;
    } else {
      AbsentDirectoryHasNoChildren(s', base);
    }
    NoDescendants(s', base, p);
  }

  /** Removal touches only the direct entries of the extension's directory and that directory. */
  lemma RemoveOnlyTouchesNamespace(s: Store, id: string, faults: Faults)
    ensures var s' := RemoveEffect(s, id, faults).0;
      var base := ExtensionBase(id);
      && s'.dirs <= s.dirs && s.dirs - s'.dirs <= {base}
      && (forall p :: Parent(p) != base ==> ReadFile(s', p) == ReadFile(s, p))
  {
    var base := ExtensionBase(id);
    forall name | name in Entries(s, base)
      ensures Parent(Join(base, name)) == base
    {
      var c :| c in ChildPaths(s, base) && Name(c) == name;
      JoinOfParent(c);
    }
  }

  lemma RemovePreservesWellformed(s: Store, id: string, faults: Faults)
    requires Wellformed(s)
    ensures Wellformed(RemoveEffect(s, id, faults).0)
  {
    var base := ExtensionBase(id);
    PrimitivesPreserveWellformed(s, base, [], faults);
    var s1 := Store(s.files - UnlinkedPaths(s, base, Entries(s, base), faults), s.dirs);
    DeletingFilesPreservesWellformed(s, UnlinkedPaths(s, base, Entries(s, base), faults));
    PrimitivesPreserveWellformed(s1, base, [], faults);
  }

  // ---------------------------------------------------------------------------
  // Requests

  /**
   * The match of /^\/internal\/extensions\/([^/]+)\/(.*)$/ against a pathname:
   * the id (up to the first '/') and the rest, which `.` must match whole.
   */
  function MatchRoute(pathname: string): (r: Option<(string, string)>)
    ensures r.Some? ==> StartsWith(pathname, ExtensionsPrefix)
    ensures r.Some? ==> r.value.0 != "" && '/' !in r.value.0 && NoLineTerminator(r.value.1)
  {
    if !StartsWith(pathname, ExtensionsPrefix) then None
    else
      var rest := pathname[|ExtensionsPrefix|..];
      match IndexOf(rest, "/")
      case None => None
      case Some(k) =>
        if k == 0 || !NoLineTerminator(rest[k + 1..]) then None
        else
          assert forall j :: 0 <= j < k ==> rest[..k][j] != '/' by {
            forall j | 0 <= j < k ensures rest[j] != '/' {
              assert !OccursAt(rest, "/", j);
            }
          }
          Some((rest[..k], rest[k + 1..]))
  }

  /** `filePath` rebuilt from the two groups. */
  function RoutePath(id: string, relativePath: string): Path {
    Join(ExtensionBase(id), relativePath)
  }

  /**
   * A pathname is intercepted with groups (id, rel) exactly when it is
   * /internal/extensions/ + a non-empty slash-free id + "/" + a remainder
   * without line terminators.
   */
  lemma MatchRouteIff(pathname: string, id: string, rel: string)
    ensures MatchRoute(pathname) == Some((id, rel)) <==>
      pathname == RoutePath(id, rel) && id != "" && '/' !in id && NoLineTerminator(rel)
  {
    var n := |ExtensionsPrefix|;
    if MatchRoute(pathname) == Some((id, rel)) {
      var rest := pathname[n..];
      var k := IndexOf(rest, "/").value;
      assert rest[k..k + 1] == "/";
      forall j | 0 <= j < k ensures rest[j] != '/' {
        assert !OccursAt(rest, "/", j);
      }
      assert rest == rest[..k] + "/" + rest[k + 1..];
      assert pathname == pathname[..n] + rest;
    }
    if pathname == RoutePath(id, rel) && id != "" && '/' !in id && NoLineTerminator(rel) {
      var rest := pathname[n..];
      assert rest == id + "/" + rel;
      assert OccursAt(rest, "/", |id|);
      forall j | 0 <= j < |id| ensures !OccursAt(rest, "/", j) {
        assert rest[j] == id[j];
      }
      var r := IndexOf(rest, "/");
      assert r.Some? && r.value == |id|;
      assert rest[..|id|] == id && rest[|id| + 1..] == rel;
    }
  }

  /** The path rebuilt from the groups is the request pathname itself. */
  lemma RoutePathIsPathname(pathname: string)
    requires MatchRoute(pathname).Some?
    ensures RoutePath(MatchRoute(pathname).value.0, MatchRoute(pathname).value.1) == pathname
  {
    MatchRouteIff(pathname, MatchRoute(pathname).value.0, MatchRoute(pathname).value.1);
  }

  /**
   * getMimeType: the first of the suffix checks that the path passes, case
   * sensitive. No two suffixes can both end one path, so each answer is given
   * exactly for its suffix.
   */
  function GetMimeType(filePath: string): (mime: string)
    ensures mime == "text/html" <==> EndsWith(filePath, ".html")
    ensures mime == "application/javascript" <==> EndsWith(filePath, ".js")
    ensures mime == "text/css" <==> EndsWith(filePath, ".css")
    ensures mime == "application/json" <==> EndsWith(filePath, ".json")
    ensures mime == "image/png" <==> EndsWith(filePath, ".png")
    ensures mime == "image/jpeg" <==> EndsWith(filePath, ".jpg") || EndsWith(filePath, ".jpeg")
    ensures mime == "image/svg+xml" <==> EndsWith(filePath, ".svg")
    ensures mime == "application/octet-stream" <==>
      !EndsWith(filePath, ".html") && !EndsWith(filePath, ".js") && !EndsWith(filePath, ".css")
      && !EndsWith(filePath, ".json") && !EndsWith(filePath, ".png") && !EndsWith(filePath, ".jpg")
      && !EndsWith(filePath, ".jpeg") && !EndsWith(filePath, ".svg")
  {
    // The eight suffixes differ in their last two characters.
    EndsWithLastTwo(filePath, ".html");
    EndsWithLastTwo(filePath, ".js");
    EndsWithLastTwo(filePath, ".css");
    EndsWithLastTwo(filePath, ".json");
    EndsWithLastTwo(filePath, ".png");
    EndsWithLastTwo(filePath, ".jpg");
    EndsWithLastTwo(filePath, ".jpeg");
    EndsWithLastTwo(filePath, ".svg");
    if EndsWith(filePath, ".html") then "text/html"
    else if EndsWith(filePath, ".js") then "application/javascript"
    else if EndsWith(filePath, ".css") then "text/css"
    else if EndsWith(filePath, ".json") then "application/json"
    else if EndsWith(filePath, ".png") then "image/png"
    else if EndsWith(filePath, ".jpg") || EndsWith(filePath, ".jpeg") then "image/jpeg"
    else if EndsWith(filePath, ".svg") then "image/svg+xml"
    else "application/octet-stream"
  }

  /** The response to a request for `filePath`: its bytes and type, or 404. */
  function Serve(s: Store, filePath: Path): (r: Response)
    ensures r.status == 200 <==> ReadFile(s, filePath).Some?
    ensures r.status == 200 ==>
      r.body == Data(s.files[filePath]) && r.headers == [("Content-Type", GetMimeType(filePath))]
    ensures r.status != 200 ==> r == NotFound
  {
    match ReadFile(s, filePath)
    case None => NotFound
    case Some(data) => Response(200, Data(data), [("Content-Type", GetMimeType(filePath))])
  }

  /** The fetch handler: no answer for paths it does not intercept. */
  function HandleFetch(s: Store, pathname: string): Option<Response> {
    match MatchRoute(pathname)
    case None => None
    case Some((id, rel)) => Some(Serve(s, RoutePath(id, rel)))
  }

  /**
   * An intercepted request is answered from the stored file at exactly its
   * pathname: 200 with those bytes and their type when it is a file, 404
   * otherwise.
   */
  lemma FetchAnswersFromStore(s: Store, pathname: string)
    ensures HandleFetch(s, pathname).Some? <==> MatchRoute(pathname).Some?
    ensures MatchRoute(pathname).Some? ==> HandleFetch(s, pathname) == Some(
      if pathname in s.files
      then Response(200, Data(s.files[pathname]), [("Content-Type", GetMimeType(pathname))])
      else NotFound)
  {
    if MatchRoute(pathname).Some? {
      RoutePathIsPathname(pathname);
    }
  }

  /** After a successful install, each file of the archive is served with its bytes. */
  lemma InstalledFileIsServed(s: Store, upload: Upload, faults: Faults, name: string)
    requires InstallEffect(s, upload, faults).1
    requires Unpacked(upload) && IsFileEntry(upload.archive.value, name)
    requires MatchRoute(RoutePath(upload.manifestId.value, name)).Some?
    ensures var path := RoutePath(upload.manifestId.value, name);
      HandleFetch(InstallEffect(s, upload, faults).0, path) ==
        Some(Response(200, Data(upload.archive.value[name].content), [("Content-Type", GetMimeType(path))]))
  {
    var path := RoutePath(upload.manifestId.value, name);
    InstallRoundTrip(s, upload, faults);
    FetchAnswersFromStore(InstallEffect(s, upload, faults).0, path);
  }

  /** After a successful removal, every request into the extension is answered 404. */
  lemma RemovedExtensionIsNotServed(s: Store, id: string, faults: Faults, rel: string)
    requires Wellformed(s) && RemoveEffect(s, id, faults).1
    requires MatchRoute(RoutePath(id, rel)).Some?
    ensures HandleFetch(RemoveEffect(s, id, faults).0, RoutePath(id, rel)) == Some(NotFound)
  {
    var path := RoutePath(id, rel);
    assert path[..|ExtensionBase(id)| + 1] == ExtensionBase(id) + "/";
    RemoveLeavesNothing(s, id, faults, path);
    FetchAnswersFromStore(RemoveEffect(s, id, faults).0, path);
  }

  // ---------------------------------------------------------------------------
  // Messages

  /** A message posted to the worker: `type`, `file` (as decoded) and `extensionID`. */
  datatype Message = Message(kind: string, file: Upload, extensionId: string)

  /** The reply posted back: `type` and `success`. */
  datatype Reply = Reply(kind: string, success: bool)

  method HandleMessage(fs: FileSystem, msg: Message, faults: Faults) returns (reply: Option<Reply>)
    requires fs.Valid()
    modifies fs
    ensures fs.Valid()
    ensures msg.kind == "installExtension" ==>
      reply.Some? && reply.value.kind == "installComplete"
      && (fs.State(), reply.value.success) == InstallEffect(old(fs.State()), msg.file, faults)
    ensures msg.kind == "removeExtension" ==>
      reply.Some? && reply.value.kind == "removeComplete"
      && (fs.State(), reply.value.success) == RemoveEffect(old(fs.State()), msg.extensionId, faults)
    ensures msg.kind != "installExtension" && msg.kind != "removeExtension" ==>
      reply.None? && fs.State() == old(fs.State())
  {
    reply := None;
    if msg.kind == "installExtension" {
      var success := InstallExtension(fs, msg.file, faults);
      reply := Some(Reply("installComplete", success));
    }
    if msg.kind == "removeExtension" {
      var success := RemoveExtension(fs, msg.extensionId, faults);
      reply := Some(Reply("removeComplete", success));
    }
  }
}
