# Virtual asset store service workers, in Dafny

This project models the two service workers that keep a virtual asset store in
a Filer in-browser file system.

- **Extension store** (`extensions/sw.js`, module `ExtensionWorker`).
  - `installExtension` unpacks an uploaded extension archive into
    `/internal/extensions/<id>/`.
  - `removeExtension` lists that directory, unlinks each entry best effort and
    then removes the directory.
  - The fetch handler answers `/internal/extensions/<id>/<path>` from the store.
  - `getMimeType` picks a content type by case-sensitive suffix.
- **Theme store** (`themeing.sw.js`, module `ThemeWorker`).
  - Three categories (backgrounds, logos, icons), each with its own directory.
  - `upload`, `remove` and `list` messages work inside a category directory.
  - A prefix router serves `/internal/themes/<category>/<filename>`.
  - A second `getMimeType` looks up the lower-cased last extension in a
    seven-entry table of image types.

Filer is abstracted in module `Filer`:

- A `Store` is a map from absolute path to bytes plus a set of directory
  paths.
- Each primitive the workers call (writeFile, unlink, rmdir, mkdir, readdir,
  readFile) is an effect function that returns the new store and the reported
  outcome.
- A primitive fails for Filer's own structural reasons:
  - writeFile: a missing parent directory, or the path is a directory;
  - unlink: the path is not a file;
  - rmdir: the directory is not empty, is the root, or is missing;
  - mkdir: EEXIST when the path exists, ENOENT when the parent is missing;
  - readdir: the directory is missing.
- A primitive can also fail with an I/O error the model does not explain. A
  `Faults` record names, per primitive, the paths on which such a call fails.
- `Wellformed` is the tree invariant every operation keeps.
- The shared `fs` object is the class `Filer.FileSystem`. Its methods apply the
  effects in place.
- Each worker operation is a method on `fs`, proved equal to an effect
  function. Lemmas about those effect functions state what the source
  promises.

Module `Strings` gives the JavaScript string operations involved:

- `startsWith` / `endsWith`;
- `indexOf`;
- `replace` with a string pattern;
- `split(".").pop()`;
- ASCII `toLowerCase`.

Module `Responses` gives the status, body and headers of a fetch `Response`.

Where a JavaScript collection is iterated, the model chooses its elements in an
arbitrary order:

- `Object.keys(zip.files)` in `InstallExtension`;
- the readdir listing in `Filer.FileSystem.ReadDir`.

So every proved property holds whatever order the browser uses.

One consequence of the code as written, proved as
`ExtensionWorker.InstallNeedsExistingDirectory`: install
never creates `/internal/extensions/<id>`. Filer's writeFile needs the parent
directory, so on a store where that directory is absent, the write of
`manifest.json` fails and install reports false.

## Model

| member | source | states |
|---|---|---|
| ExtensionWorker.HandleMessage | public/pages/internal/extensions/sw.js:17-29 | `installExtension` replies `installComplete` and `removeExtension` replies `removeComplete`, each with the operation's result and new store. Any other type gets no reply and changes nothing. |
| ExtensionWorker.InstallEffect | public/pages/internal/extensions/sw.js:32-68 | The specification `InstallExtension` is proved equal to: nothing changes unless the archive unpacked; then every file entry whose write can succeed is added at `<base>/<name>`, and the result is whether all of them can. Its properties are the `Install*` lemmas below. |
| ExtensionWorker.InstallExtension | public/pages/internal/extensions/sw.js:32-68 | In the new store, every non-folder entry whose write succeeds is added at `<base>/<name>`, and all else is kept. The result is true exactly when every file write succeeded. The store stays a tree. This holds for any iteration order. |
| ExtensionWorker.InstallWritesEveryEntry | public/pages/internal/extensions/sw.js:41-63 | For an unpacked archive, the result is true iff every file entry can be written. Every writable entry lands with exactly its bytes, even when another write fails. |
| ExtensionWorker.InstallRoundTrip | public/pages/internal/extensions/sw.js:37-60 | After a successful install, reading `<base>/<name>` gives back each file entry's bytes, `manifest.json` included. |
| ExtensionWorker.InstallRejectsBeforeWriting | public/pages/internal/extensions/sw.js:34-37 | An archive that fails to decode, has no `manifest.json` file, or has a `manifest.json` that is not valid JSON gives false with the store untouched. |
| ExtensionWorker.InstallOnlyTouchesNamespace | public/pages/internal/extensions/sw.js:38-60 | Install creates no directory and deletes no file. Every path other than `<base>/<name>` of a file entry reads as before: files outside `<base>/`, files already under `<base>/` that the archive does not hold, and folder entries' paths. A file entry whose write fails reads as before too. |
| ExtensionWorker.InstallNeedsExistingDirectory | public/pages/internal/extensions/sw.js:38-57 | When `/internal/extensions/<id>` is not a directory, install reports false. |
| ExtensionWorker.InstallPreservesWellformed | public/pages/internal/extensions/sw.js:41-60 | Install keeps the store a tree. |
| ExtensionWorker.RemoveEffect | public/pages/internal/extensions/sw.js:71-108 | The specification `RemoveExtension` is proved equal to: an unreadable directory gives false; an empty one is rmdir'ed and gives true; otherwise every entry's unlink is attempted and the result is that of the rmdir. Its properties are the `Remove*` lemmas below. |
| ExtensionWorker.RemoveExtension | public/pages/internal/extensions/sw.js:71-108 | One unlink is attempted per listed entry, in listing order; a failed unlink does not stop the rest. Then rmdir runs. The new store and result are those of `RemoveEffect`, and the store stays a tree. |
| ExtensionWorker.RemoveUnreadable | public/pages/internal/extensions/sw.js:75-79 | An unreadable directory gives false and the store unchanged. |
| ExtensionWorker.RemoveEmptyDirectory | public/pages/internal/extensions/sw.js:81-85 | An empty directory gives true whatever rmdir reports. No file changes, and the directory is gone unless rmdir fails. |
| ExtensionWorker.RemoveResult | public/pages/internal/extensions/sw.js:87-103 | For a non-empty directory, the result is true iff rmdir does not fail and every entry is a file whose unlink succeeds. That is exactly when the final rmdir succeeds. |
| ExtensionWorker.RemoveUnlinksEveryEntry | public/pages/internal/extensions/sw.js:87-92 | Every listed entry whose unlink can succeed is gone afterwards, whatever the other unlinks and the final rmdir do. |
| ExtensionWorker.RemoveLeavesNothing | public/pages/internal/extensions/sw.js:87-103 | After a successful removal, no file or directory lies anywhere below `<base>/`. |
| ExtensionWorker.RemoveOnlyTouchesNamespace | public/pages/internal/extensions/sw.js:72-105 | Removal deletes only direct entries of `<base>` and `<base>` itself. Every other path reads as before, and no directory is added. |
| ExtensionWorker.RemovePreservesWellformed | public/pages/internal/extensions/sw.js:71-108 | Removal keeps the store a tree. |
| ExtensionWorker.MatchRoute | public/pages/internal/extensions/sw.js:113 | The match of the route pattern: when it matches, the path starts with `/internal/extensions/`, the id group is non-empty and slash-free, and the rest holds no line terminator. `MatchRouteIff` gives the converse. |
| ExtensionWorker.MatchRouteIff | public/pages/internal/extensions/sw.js:113-117 | The regex matches with groups (id, rel) exactly when the path is `/internal/extensions/` + a non-empty slash-free id + `/` + a remainder without line terminators. Both directions are proved. |
| ExtensionWorker.RoutePathIsPathname | public/pages/internal/extensions/sw.js:116-118 | The `filePath` rebuilt from the groups is the request pathname itself. |
| ExtensionWorker.Serve | public/pages/internal/extensions/sw.js:122-133 | Status 200 iff the file exists, with its bytes and `Content-Type: getMimeType(filePath)` as the only header; otherwise 404 "File not found". |
| ExtensionWorker.HandleFetch | public/pages/internal/extensions/sw.js:111-138 | The fetch handler: no answer unless the route pattern matches, else the `Serve` answer for the rebuilt path. Its behaviour is stated by `FetchAnswersFromStore`. |
| ExtensionWorker.FetchAnswersFromStore | public/pages/internal/extensions/sw.js:111-138 | A path is answered exactly when the regex matches. The answer is 200 with the stored bytes and `getMimeType(pathname)` when the file exists, and 404 "File not found" otherwise. |
| ExtensionWorker.InstalledFileIsServed | public/pages/internal/extensions/sw.js:118-133 | After a successful install, a request whose pathname is the raw path `<base>/<name>` of an archive file, when the route pattern matches it, returns 200 with that file's bytes. |
| ExtensionWorker.RemovedExtensionIsNotServed | public/pages/internal/extensions/sw.js:122-126 | After a successful removal, every request for `<base>/<rel>` that the route pattern matches gets 404. |
| ExtensionWorker.GetMimeType | public/pages/internal/extensions/sw.js:141-150 | Each of the seven types is returned iff the path ends with its suffix (`.jpg` or `.jpeg` for `image/jpeg`). `application/octet-stream` is returned iff the path ends with none of them; the check is case-sensitive. |
| Filer.FileSystem.ReadDir | public/pages/internal/extensions/sw.js:75-80 | It succeeds iff the directory exists and readdir does not fail. Each name of the directory's children is listed exactly once. |
| Strings.ReplaceLeadingPrefix | public/pages/internal/themeing.sw.js:138-139 | `replace(prefix, "")` on a path starting with `prefix` drops exactly that prefix. |
| Strings.AfterLastDotOfJoin | public/pages/internal/themeing.sw.js:169 | `split(".").pop()` of `stem.ext` is `ext` when `ext` holds no dot, whatever the stem holds. |
| ThemeWorker.Lookup | public/pages/internal/themeing.sw.js:30 | A table gives a directory iff it names the category, and only a directory it pairs with the category. |
| ThemeWorker.DirectoryOf | public/pages/internal/themeing.sw.js:30 | `DIRECTORIES[category]` as a lookup in the declared table; `DirectoryOfCategory` states its values. |
| ThemeWorker.DirectoryOfCategory | public/pages/internal/themeing.sw.js:5-9 | Exactly `backgrounds`, `logos` and `icons` have a directory, and it is `/` + the category. |
| ThemeWorker.HandleMessage | public/pages/internal/themeing.sw.js:28-65 | An unknown category, or a type other than upload/remove/list, gets no reply and changes no state. `upload` and `remove` reply with type, category and the helper's result and store. `list` changes nothing and replies with the listing. |
| ThemeWorker.CreateDirectoryEffect | public/pages/internal/themeing.sw.js:68-77 | The result is true exactly when the path exists afterwards, i.e. mkdir succeeded or reported EEXIST. No file changes, and at most that path is added. |
| ThemeWorker.CreateDirectory | public/pages/internal/themeing.sw.js:68-77 | The `fs` state and result are those of `CreateDirectoryEffect`; the store stays a tree. |
| ThemeWorker.UploadEffect | public/pages/internal/themeing.sw.js:79-102 | The specification `UploadFile` is proved equal to: no file gives false; otherwise mkdir of the category directory, then false if the bytes cannot be read, else the outcome of writing `<dir>/<name>`. `UploadWritesOneFile` and `UploadSucceedsIff` state its properties. |
| ThemeWorker.UploadWritesOneFile | public/pages/internal/themeing.sw.js:79-102 | A missing file gives false and no change. Unreadable contents give false. The files change exactly by `<dir>/<name>` := bytes when the result is true, and not at all otherwise. At most the category directory is added. |
| ThemeWorker.UploadSucceedsIff | public/pages/internal/themeing.sw.js:79-102 | An upload succeeds exactly when the bytes were read and the file can be written once the category directory exists. |
| ThemeWorker.UploadThenListed | public/pages/internal/themeing.sw.js:79-97 | After a successful upload of a slash-free name, the directory exists and lists that name. |
| ThemeWorker.UploadFile | public/pages/internal/themeing.sw.js:79-102 | The `fs` state and result are those of `UploadEffect`; the store stays a tree. |
| ThemeWorker.RemoveFileEffect | public/pages/internal/themeing.sw.js:104-118 | The specification `RemoveFile` is proved equal to: a missing or empty filename gives false, otherwise the outcome of unlinking `<dir>/<filename>`. `RemoveFileDeletesOne` states its properties. |
| ThemeWorker.RemoveFileDeletesOne | public/pages/internal/themeing.sw.js:104-118 | A missing or empty filename gives false and no change. Otherwise the result is true exactly when unlinking `<dir>/<filename>` can succeed. The files lose exactly that path on success and nothing on failure. Directories never change. |
| ThemeWorker.RemoveFile | public/pages/internal/themeing.sw.js:104-118 | The `fs` state and result are those of `RemoveFileEffect`; the store stays a tree. |
| ThemeWorker.HelpersPreserveWellformed | public/pages/internal/themeing.sw.js:68-118 | createDirectory, uploadFile and removeFile keep the store a tree. |
| ThemeWorker.ListFiles | public/pages/internal/themeing.sw.js:120-131 | The directory's entry names, each once, when readdir succeeds; `[]` when it fails. |
| ThemeWorker.RouteIn | public/pages/internal/themeing.sw.js:137-143 | A path is intercepted iff some category's prefix `/internal/themes/<category>/` starts it. |
| ThemeWorker.Route | public/pages/internal/themeing.sw.js:137-143 | The routing loop over the declared table; `RouteCategory` and `RouteOther` state where each path goes. |
| ThemeWorker.RouteFirstMatch | public/pages/internal/themeing.sw.js:137-142 | The first category in table order whose prefix starts the path wins. It is served from `<dir>/` + the remainder after that prefix. |
| ThemeWorker.RouteCategory | public/pages/internal/themeing.sw.js:134-144 | `/internal/themes/<category>/<filename>` is served from `/<category>/<filename>` for each of the three categories. |
| ThemeWorker.RouteOther | public/pages/internal/themeing.sw.js:134-144 | A path under none of the three prefixes is not intercepted. |
| ThemeWorker.ServeFile | public/pages/internal/themeing.sw.js:146-165 | Status 200 iff the file exists, with its bytes, `Content-Type: getMimeType(path)` and `Cache-Control: public, max-age=0`. Otherwise 404 "File not found". |
| ThemeWorker.HandleFetch | public/pages/internal/themeing.sw.js:134-144 | The fetch handler: no answer unless a category intercepts the path, else the `ServeFile` answer for the routed path. `FetchServesCategoryFile` and `RouteOther` state its behaviour. |
| ThemeWorker.FetchServesCategoryFile | public/pages/internal/themeing.sw.js:134-165 | A request under a category's prefix is answered from `/<category>/<filename>`: 200 with bytes and both headers when stored, else 404. |
| ThemeWorker.UploadedFileIsServed | public/pages/internal/themeing.sw.js:84-160 | After a successful upload, a request whose pathname is the raw `/internal/themes/<category>/<name>` is answered 200 with the uploaded bytes. |
| ThemeWorker.GetMimeType | public/pages/internal/themeing.sw.js:168-180 | The result is one of the six image types or `application/octet-stream`; never a text or script type. |
| ThemeWorker.MimeOf | public/pages/internal/themeing.sw.js:170-179 | The entry of the seven-entry table for the extension, or `application/octet-stream` when the table has none; the `GetMimeType*` lemmas state its use. |
| ThemeWorker.GetMimeTypeByExtension | public/pages/internal/themeing.sw.js:169-179 | The type of `stem.ext` is the table entry for lower-cased `ext`, or the default, whatever the stem holds. |
| ThemeWorker.GetMimeTypeWithoutDot | public/pages/internal/themeing.sw.js:169-179 | A name without a dot is looked up whole, lower-cased. |
| ThemeWorker.GetMimeTypeIgnoresCase | public/pages/internal/themeing.sw.js:169-179 | `X.PNG` is `image/png`. |
| ThemeWorker.GetMimeTypeHtmlUnknown | public/pages/internal/themeing.sw.js:170-179 | `page.html` is `application/octet-stream`: html is not in this table, unlike the extension worker's. |

## Left out

- `public/pages/internal/icons.sw.js` is not part of this model. It is a cache-first wrapper over the browser Cache API and the network.
- The service-worker lifecycle is left out: `install` and `activate`, `skipWaiting`, `clients.claim` and the `postMessage` transport. Dispatch is modelled as a method returning an optional reply record. The theme worker's install handler (themeing.sw.js:12-20) creates the three directories; with `CreateDirectory` this can be composed, but it is not modelled as its own operation.
- JSZip decoding and `JSON.parse` are foreign libraries. The decoded archive (entry name to folder flag and bytes) and the parsed manifest id are inputs. The id is never validated: a `manifest.json` that is valid JSON but has no `id` installs under `/internal/extensions/undefined`. The model takes the id as a string, so that case is the id `"undefined"`, and an id that is not a string, which JavaScript would stringify into the path, is not modelled. A per-entry decoding failure is not modelled either.
- `Promise.all` concurrency and the `pending` counter are modelled as sequential "attempt all" loops that finish every attempt. That matches the effects on the store. When a write fails, `Promise.all` rejects at once into the `catch`, so install reports false possibly before other writes land; the model states the store once every attempt has finished. Interleaving with other concurrent messages is not modelled.
- Filer internals are left out:
  - persistence;
  - path normalisation: paths are raw strings, so a `..` segment in an id or filename is not resolved;
  - read errors of readFile other than a missing file;
  - modes and the `{ recursive: true }` option of mkdir. The option is modelled as having no effect; each category directory is a child of the root anyway.
- The `Faults` record decides, per primitive and path, whether a call fails. That covers the same path failing on every call within one operation, not intermittent failures.
- Console logging is left out. `Response` and `URL` are reduced to status, body and headers and to the pathname. The implicit `text/plain` content type of the 404 body is not modelled.
- ExtensionWorker.InstalledFileIsServed: the request's pathname is taken to be the raw stored path. A browser's `new URL(...).pathname` is percent-encoded, while files are stored under their raw names (extensions/sw.js:47). So a name holding a space, a non-ASCII character, `%`, `#` or `?` is requested under a different path (`my pic.png` as `my%20pic.png`) and gets 404. The model does not encode pathnames, so the lemma does not cover that case.
- ThemeWorker.UploadedFileIsServed: the same gap. The file is stored at `${dir}/${file.name}` (themeing.sw.js:84) but looked up with the percent-encoded remainder of the pathname, so such names are not served back.
- `toLowerCase` is modelled on ASCII letters only.
- The JavaScript prototype-key quirk of `DIRECTORIES[category]` and `types[ext]` is not modelled: the tables are finite maps. JavaScript would find inherited keys such as `constructor`.
- The shapes of message fields are taken as given: `file` is absent or a file with a name, and `filename` is absent or a string. Other falsy values of `filename` are not modelled.
- The order of `Object.keys(zip.files)` and of readdir listings (and so of the `listFiles` reply) is left open. `Object.entries(DIRECTORIES)` follows insertion order, which the model's table keeps.
