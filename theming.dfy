/**
 * The theme service worker: user-uploaded backgrounds, logos and icons kept
 * in one directory per category of the shared Filer store, managed by
 * upload / remove / list messages and served under /internal/themes/.
 */
module ThemeWorker {
  import opened Wrappers
  import opened Strings
  import opened Filer
  import opened Responses

  // ---------------------------------------------------------------------------
  // Categories
  // ---------------------------------------------------------------------------

  /** DIRECTORIES, in declaration order: each category and its directory. */
  const Directories: seq<(string, Path)> :=
    [("backgrounds", "/backgrounds"), ("logos", "/logos"), ("icons", "/icons")]

  /** The directory a table gives for `category`, if the table names it. */
  function Lookup(table: seq<(string, Path)>, category: string): (r: Option<Path>)
    ensures r.Some? <==> exists i :: 0 <= i < |table| && table[i].0 == category
    ensures r.Some? ==> (category, r.value) in table
  {
    if table == [] then None
    else if table[0].0 == category then Some(table[0].1)
    else
      var r := Lookup(table[1..], category);
      assert forall i :: 0 < i < |table| ==> table[i] == table[1..][i - 1];
      r
  }

  /** `DIRECTORIES[category]`. */
  function DirectoryOf(category: string): Option<Path> {
    Lookup(Directories, category)
  }

  predicate IsCategory(category: string) {
    category == "backgrounds" || category == "logos" || category == "icons"
  }

  /** Exactly the three categories have a directory, and it is "/" + the category. */
  lemma DirectoryOfCategory(category: string)
    ensures DirectoryOf(category).Some? <==> IsCategory(category)
    ensures DirectoryOf(category).Some? ==> DirectoryOf(category).value == "/" + category
  {
    assert Directories[1..] == [("logos", "/logos"), ("icons", "/icons")];
    assert Directories[1..][1..] == [("icons", "/icons")];
  }

  // ---------------------------------------------------------------------------
  // File helpers
  // ---------------------------------------------------------------------------

  /**
   * createDirectory: mkdir, reporting true when it succeeded or the path
   * already existed (EEXIST) and false on any other error.
   */
  function CreateDirectoryEffect(s: Store, path: Path, faults: Faults): (r: (Store, bool))
    ensures r.1 <==> path in r.0.files || path in r.0.dirs
    ensures r.0.files == s.files && s.dirs <= r.0.dirs <= s.dirs + {path}
  {
    var (after, err) := MkdirEffect(s, path, faults);
    (after, err.None? || err == Some(EEXIST))
  }

  /** The uploaded File: its name and the bytes `arrayBuffer()` yields, or nothing when that rejects. */
  datatype UploadedFile = UploadedFile(name: string, contents: Option<Bytes>)

  /**
   * uploadFile: no file gives false; otherwise the category directory is
   * created (its outcome ignored), the bytes are read, and the file is
   * written at `${dir}/${file.name}`.
   */
  function UploadEffect(s: Store, dir: Path, file: Option<UploadedFile>, faults: Faults): (Store, bool) {
    if file.None? then (s, false)
    else
      var made := CreateDirectoryEffect(s, dir, faults).0;
      match file.value.contents
      case None => (made, false)
      case Some(data) => WriteEffect(made, Join(dir, file.value.name), data, faults)
  }

  /** removeFile: a missing or empty filename gives false; otherwise `${dir}/${filename}` is unlinked. */
  function RemoveFileEffect(s: Store, dir: Path, filename: Option<string>, faults: Faults): (Store, bool) {
    if filename.None? || filename.value == "" then (s, false)
    else UnlinkEffect(s, Join(dir, filename.value), faults)
  }

  /**
   * An upload changes the files by exactly the one write it reports: the
   * file's bytes at `${dir}/${name}` on success and nothing on failure. At
   * most the category directory is added.
   */
  lemma UploadWritesOneFile(s: Store, dir: Path, file: Option<UploadedFile>, faults: Faults)
    ensures file.None? ==> UploadEffect(s, dir, file, faults) == (s, false)
    ensures file.Some? && file.value.contents.None? ==> !UploadEffect(s, dir, file, faults).1
    ensures UploadEffect(s, dir, file, faults).1 ==> file.Some? && file.value.contents.Some?
    ensures var (after, ok) := UploadEffect(s, dir, file, faults);
      after.files == (if ok then s.files[Join(dir, file.value.name) := file.value.contents.value] else s.files)
    ensures s.dirs <= UploadEffect(s, dir, file, faults).0.dirs <= s.dirs + {dir}
  {
  }

  /**
   * An upload succeeds exactly when the bytes could be read and the file can
   * be written once the category directory exists.
   */
  lemma UploadSucceedsIff(s: Store, dir: Path, file: UploadedFile, faults: Faults)
    ensures UploadEffect(s, dir, Some(file), faults).1 <==>
      file.contents.Some? && CanWrite(CreateDirectoryEffect(s, dir, faults).0, Join(dir, file.name), faults)
  {
  }

  /** After a successful upload of a slash-free name, the category directory lists that name. */
  lemma UploadThenListed(s: Store, dir: Path, file: UploadedFile, faults: Faults)
    requires dir != "" && '/' !in file.name
    requires UploadEffect(s, dir, Some(file), faults).1
    ensures var after := UploadEffect(s, dir, Some(file), faults).0;
      dir in after.dirs && file.name in Entries(after, dir)
  {
    var after := UploadEffect(s, dir, Some(file), faults).0;
    var path := Join(dir, file.name);
    ParentOfJoin(dir, file.name);
    assert path in after.files && path != Root;
    assert path in ChildPaths(after, dir);
  }

  /**
   * A removal deletes exactly `${dir}/${filename}` when it reports success and
   * changes nothing otherwise; a missing or empty filename always fails.
   */
  lemma RemoveFileDeletesOne(s: Store, dir: Path, filename: Option<string>, faults: Faults)
    ensures filename.None? || filename == Some("") ==> RemoveFileEffect(s, dir, filename, faults) == (s, false)
    ensures var (after, ok) := RemoveFileEffect(s, dir, filename, faults);
      && after.dirs == s.dirs
      && after.files == (if ok then s.files - {Join(dir, filename.value)} else s.files)
    ensures filename.Some? && filename.value != "" ==>
      (RemoveFileEffect(s, dir, filename, faults).1 <==> CanUnlink(s, Join(dir, filename.value), faults))
  {
  }

  /** The theme helpers keep the store a tree. */
  lemma HelpersPreserveWellformed(s: Store, dir: Path, file: Option<UploadedFile>, filename: Option<string>, faults: Faults)
    requires Wellformed(s)
    ensures Wellformed(CreateDirectoryEffect(s, dir, faults).0)
    ensures Wellformed(UploadEffect(s, dir, file, faults).0)
    ensures Wellformed(RemoveFileEffect(s, dir, filename, faults).0)
  {
    PrimitivesPreserveWellformed(s, dir, [], faults);
    var made := CreateDirectoryEffect(s, dir, faults).0;
    if file.Some? && file.value.contents.Some? {
      PrimitivesPreserveWellformed(made, Join(dir, file.value.name), file.value.contents.value, faults);
    }
    if filename.Some? {
      PrimitivesPreserveWellformed(s, Join(dir, filename.value), [], faults);
    }
  }

  method CreateDirectory(fs: FileSystem, path: Path, faults: Faults) returns (ok: bool)
    requires fs.Valid()
    modifies fs
    ensures fs.Valid()
    ensures (fs.State(), ok) == CreateDirectoryEffect(old(fs.State()), path, faults)
  {
    var err := fs.Mkdir(path, faults);
    ok := err.None? || err == Some(EEXIST);
  }

  method UploadFile(fs: FileSystem, dir: Path, file: Option<UploadedFile>, faults: Faults) returns (ok: bool)
    requires fs.Valid()
    modifies fs
    ensures fs.Valid()
    ensures (fs.State(), ok) == UploadEffect(old(fs.State()), dir, file, faults)
  {
    if file.None? {
      return false;
    }
    var _ := CreateDirectory(fs, dir, faults);
    match file.value.contents
    case None =>
      ok := false;
    case Some(data) =>
      ok := fs.WriteFile(Join(dir, file.value.name), data, faults);
  }

  method RemoveFile(fs: FileSystem, dir: Path, filename: Option<string>, faults: Faults) returns (ok: bool)
    requires fs.Valid()
    modifies fs
    ensures fs.Valid()
    ensures (fs.State(), ok) == RemoveFileEffect(old(fs.State()), dir, filename, faults)
  {
    if filename.None? || filename.value == "" {
      return false;
    }
    ok := fs.Unlink(Join(dir, filename.value), faults);
  }

  /** listFiles: the names readdir reports for the directory, each once, or [] when readdir fails. */
  method ListFiles(fs: FileSystem, dir: Path, faults: Faults) returns (names: seq<string>)
    ensures Distinct(names)
    ensures CanReadDir(fs.State(), dir, faults) ==> forall n :: n in names <==> n in Entries(fs.State(), dir)
    ensures !CanReadDir(fs.State(), dir, faults) ==> names == []
  {
    var listing := fs.ReadDir(dir, faults);
    if listing.Some? {
      names := listing.value;
    } else {
      names := [];
    }
  }

  // ---------------------------------------------------------------------------
  // Messages
  // ---------------------------------------------------------------------------

  /** The fields of a message's data; `kind` is its `type`. */
  datatype Message = Message(kind: string, category: string, file: Option<UploadedFile>, filename: Option<string>)

  datatype Reply =
    | Status(kind: string, category: string, success: bool)
    | Listing(kind: string, category: string, files: seq<string>)

  /**
   * The message handler: a category outside the table or an unknown type
   * gets no reply and leaves the store alone; upload, remove and list answer
   * with the helper's result for the category's directory.
   */
  method HandleMessage(fs: FileSystem, msg: Message, faults: Faults) returns (reply: Option<Reply>)
    requires fs.Valid()
    modifies fs
    ensures fs.Valid()
    ensures DirectoryOf(msg.category).None? ==> reply.None? && fs.State() == old(fs.State())
    ensures msg.kind !in {"upload", "remove", "list"} ==> reply.None? && fs.State() == old(fs.State())
    ensures DirectoryOf(msg.category).Some? && msg.kind == "upload" ==>
      && reply.Some? && reply.value.Status? && reply.value.kind == "upload" && reply.value.category == msg.category
      && (fs.State(), reply.value.success) == UploadEffect(old(fs.State()), DirectoryOf(msg.category).value, msg.file, faults)
    ensures DirectoryOf(msg.category).Some? && msg.kind == "remove" ==>
      && reply.Some? && reply.value.Status? && reply.value.kind == "remove" && reply.value.category == msg.category
      && (fs.State(), reply.value.success) == RemoveFileEffect(old(fs.State()), DirectoryOf(msg.category).value, msg.filename, faults)
    ensures DirectoryOf(msg.category).Some? && msg.kind == "list" ==>
      var dir := DirectoryOf(msg.category).value;
      && fs.State() == old(fs.State())
      && reply.Some? && reply.value.Listing? && reply.value.kind == "list" && reply.value.category == msg.category
      && Distinct(reply.value.files)
      && (CanReadDir(fs.State(), dir, faults) ==> forall n :: n in reply.value.files <==> n in Entries(fs.State(), dir))
      && (!CanReadDir(fs.State(), dir, faults) ==> reply.value.files == [])
  {
    var dir := DirectoryOf(msg.category);
    if dir.None? {
      return None;
    }
    if msg.kind == "upload" {
      var success := UploadFile(fs, dir.value, msg.file, faults);
      reply := Some(Status(msg.kind, msg.category, success));
    } else if msg.kind == "remove" {
      var success := RemoveFile(fs, dir.value, msg.filename, faults);
      reply := Some(Status(msg.kind, msg.category, success));
    } else if msg.kind == "list" {
      var files := ListFiles(fs, dir.value, faults);
      reply := Some(Listing(msg.kind, msg.category, files));
    } else {
      reply := None;
    }
  }

  // ---------------------------------------------------------------------------
  // Fetch routing and serving
  // ---------------------------------------------------------------------------

  function ThemePrefix(category: string): string {
    "/internal/themes/" + category + "/"
  }

  /**
   * The fetch handler's loop over a category table: the first entry whose
   * prefix starts the path is served from `${dir}/${filename}`, where the
   * filename is what replacing that prefix by "" leaves.
   */
  function RouteIn(table: seq<(string, Path)>, pathname: string): (r: Option<Path>)
    ensures r.Some? <==> exists i :: 0 <= i < |table| && StartsWith(pathname, ThemePrefix(table[i].0))
  {
    if table == [] then None
    else
      var prefix := ThemePrefix(table[0].0);
      if StartsWith(pathname, prefix) then Some(Join(table[0].1, ReplaceFirst(pathname, prefix, "")))
      else
        var r := RouteIn(table[1..], pathname);
        assert forall i :: 0 < i < |table| ==> table[i] == table[1..][i - 1];
        r
  }

  /** The path a request is served from, if a category intercepts it. */
  function Route(pathname: string): Option<Path> {
    RouteIn(Directories, pathname)
  }

  /** When entry `i` is the first whose prefix starts the path, it is the one served. */
  lemma {:induction false} RouteFirstMatch(table: seq<(string, Path)>, pathname: string, i: nat)
    requires i < |table| && StartsWith(pathname, ThemePrefix(table[i].0))
    requires forall j :: 0 <= j < i ==> !StartsWith(pathname, ThemePrefix(table[j].0))
    ensures RouteIn(table, pathname) == Some(Join(table[i].1, pathname[|ThemePrefix(table[i].0)|..]))
    decreases i
  {
    if i == 0 {
      ReplaceLeadingPrefix(pathname, ThemePrefix(table[0].0));
    } else {
      assert !StartsWith(pathname, ThemePrefix(table[0].0));
      assert table[1..][i - 1] == table[i];
      RouteFirstMatch(table[1..], pathname, i - 1);
    }
  }

  /** A request under a category's prefix is served from that category's directory. */
  lemma RouteCategory(category: string, filename: string)
    requires IsCategory(category)
    ensures Route(ThemePrefix(category) + filename) == Some(Join("/" + category, filename))
  {
    var p := ThemePrefix(category) + filename;
    var i := if category == "backgrounds" then 0 else if category == "logos" then 1 else 2;
    DirectoryOfCategory(category);
    assert Directories[i].0 == category;
    assert Directories[i].1 == "/" + category;
    assert p[..|ThemePrefix(category)|] == ThemePrefix(category);
    // The three prefixes differ at index 17, the first letter of the category.
    assert p[17] == category[0];
    forall j | 0 <= j < i
      ensures !StartsWith(p, ThemePrefix(Directories[j].0))
    {
      assert ThemePrefix(Directories[j].0)[17] == Directories[j].0[0];
    }
    RouteFirstMatch(Directories, p, i);
    assert p[|ThemePrefix(category)|..] == filename;
  }

  /** A path under none of the three prefixes is not intercepted. */
  lemma RouteOther(pathname: string)
    requires !StartsWith(pathname, ThemePrefix("backgrounds"))
    requires !StartsWith(pathname, ThemePrefix("logos"))
    requires !StartsWith(pathname, ThemePrefix("icons"))
    ensures Route(pathname).None?
  {
  }

  const CacheControl: string := "public, max-age=0"

  /** serveFile: 200 with the stored bytes and their headers, or 404 "File not found". */
  function ServeFile(s: Store, path: Path): (r: Response)
    ensures r.status == 200 <==> ReadFile(s, path).Some?
    ensures r.status == 200 ==>
      && r.body == Data(s.files[path])
      && ("Content-Type", GetMimeType(path)) in r.headers
      && ("Cache-Control", CacheControl) in r.headers
    ensures r.status != 200 ==> r == NotFound
  {
    match ReadFile(s, path)
    case None => NotFound
    case Some(data) => Response(200, Data(data), [("Content-Type", GetMimeType(path)), ("Cache-Control", CacheControl)])
  }

  /** The fetch handler: no answer for paths outside the three prefixes. */
  function HandleFetch(s: Store, pathname: string): Option<Response> {
    match Route(pathname)
    case None => None
    case Some(path) => Some(ServeFile(s, path))
  }

  /**
   * A request for `/internal/themes/<category>/<filename>` is answered from
   * `<dir>/<filename>`, with the type of that path; any other path gets no
   * answer from this worker.
   */
  lemma FetchServesCategoryFile(s: Store, category: string, filename: string)
    requires IsCategory(category)
    ensures var path := Join("/" + category, filename);
      HandleFetch(s, ThemePrefix(category) + filename) == Some(
        if path in s.files
        then Response(200, Data(s.files[path]), [("Content-Type", GetMimeType(path)), ("Cache-Control", CacheControl)])
        else NotFound)
  {
    RouteCategory(category, filename);
  }

  /** An uploaded file is served back with its bytes under its category's prefix. */
  lemma UploadedFileIsServed(s: Store, category: string, file: UploadedFile, faults: Faults)
    requires IsCategory(category)
    requires UploadEffect(s, "/" + category, Some(file), faults).1
    ensures var after := UploadEffect(s, "/" + category, Some(file), faults).0;
      && HandleFetch(after, ThemePrefix(category) + file.name).Some?
      && HandleFetch(after, ThemePrefix(category) + file.name).value.status == 200
      && HandleFetch(after, ThemePrefix(category) + file.name).value.body == Data(file.contents.value)
  {
    var after := UploadEffect(s, "/" + category, Some(file), faults).0;
    UploadWritesOneFile(s, "/" + category, Some(file), faults);
    FetchServesCategoryFile(after, category, file.name);
  }

  // ---------------------------------------------------------------------------
  // MIME types
  // ---------------------------------------------------------------------------

  const MimeTypes: map<string, string> := map[
    "png" := "image/png",
    "jpg" := "image/jpeg",
    "jpeg" := "image/jpeg",
    "gif" := "image/gif",
    "webp" := "image/webp",
    "svg" := "image/svg+xml",
    "ico" := "image/x-icon"]

  const DefaultMimeType: string := "application/octet-stream"

  /** The table entry for an extension, or the default. */
  function MimeOf(ext: string): string {
    if ext in MimeTypes then MimeTypes[ext] else DefaultMimeType
  }

  /** getMimeType: the lower-cased text after the last '.', looked up in the table. */
  function GetMimeType(filename: string): (mime: string)
    ensures mime in {"image/png", "image/jpeg", "image/gif", "image/webp", "image/svg+xml", "image/x-icon", DefaultMimeType}
  {
    MimeOf(ToLower(AfterLastDot(filename)))
  }

  /** The type is decided by the last extension alone, whatever precedes it. */
  lemma GetMimeTypeByExtension(stem: string, ext: string)
    requires '.' !in ext
    ensures GetMimeType(stem + "." + ext) == MimeOf(ToLower(ext))
  {
    AfterLastDotOfJoin(stem, ext);
  }

  /** A name without '.' is looked up whole. */
  lemma GetMimeTypeWithoutDot(filename: string)
    requires '.' !in filename
    ensures GetMimeType(filename) == MimeOf(ToLower(filename))
  {
    AfterLastDotNoDot(filename);
  }

  /** The extension is lower-cased before the lookup. */
  lemma GetMimeTypeIgnoresCase()
    ensures GetMimeType("X.PNG") == "image/png"
  {
    assert "X" + "." + "PNG" == "X.PNG";
    GetMimeTypeByExtension("X", "PNG");
    assert ToLower("PNG") == "png";
  }

  /** The table holds image types only: a page is served as opaque bytes. */
  lemma GetMimeTypeHtmlUnknown()
    ensures GetMimeType("page.html") == DefaultMimeType
  {
    assert "page" + "." + "html" == "page.html";
    GetMimeTypeByExtension("page", "html");
    assert ToLower("html") == "html";
  }
}
