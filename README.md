# pvm-windows: a verified model of install and use

pvm-windows is a PHP version manager for Windows that installs PHP builds
into a private store under `C:\Users\<user>\pvm\php\`. It selects one of
them by repointing the `C:\Users\<user>\pvm\sym\` directory link. This
project models the decision logic of the repository's `index.js` and
proves properties about it.

- **`install <spec>`** (`downloadPHP`, `createPvm`, `decompressPhpZip`):
  - bootstraps the store;
  - resolves the spec against the `releases.json` catalog;
  - maps the host architecture to `x64` or `x86`;
  - picks the thread-safe build;
  - either reuses a cached `php.zip` whose hash output contains the
    catalog digest, or deletes it and downloads the archive again;
  - extracts the archive and removes `php.zip`;
  - copies `php.ini-development` to `php.ini` and enables the commented
    `;extension_dir = "ext"` directive.
- **`use <spec>`** (`setPHPVersion`, `createSym`) picks the first
  installed directory whose name starts with the spec. It then runs
  `rmdir` on the link (a failure is tolerated), an elevated `mklink /D`
  (a failure is fatal), and `setx PHP_SYMLINK`.

The machine is a `Platform.Host` object holding three things. Each
Node.js primitive the code calls (`existsSync`, `mkdirSync`, `unlinkSync`,
`copyFileSync`, `readFileSync`, `writeFileSync`, `decompress`, and each
`exec` or fetch) becomes a member of the class that reads or changes them:
`Exists` is a predicate, `ReadFile` only reads, and the others are methods
that update them:

- the file system, as a map from path to `Dir`, `File(content)` or
  `Link(target)`;
- the user's persistent environment variables;
- the ordered trace of external commands: the two fetches, `Get-FileHash`,
  `rmdir`, `mklink` and `setx`.

The results of what the code hands to a library, a shell or the network
are parameters:

- the fetched catalog (`None` when the request fails);
- the hash tool's output (`None` when it fails);
- the downloaded bytes;
- what the `decompress` library makes of an archive's bytes (`unzip`);
- the success of `rmdir`, `mklink` and `setx`;
- the directory listing `readdirSync` returns (`None` when it throws);
  it is a parameter of its own and is not derived from the file map;
- `process.arch` and `USERNAME`.

The commands themselves (`Install.CreatePvm`, `Install.DecompressPhpZip`,
`Install.DownloadPHP`, `Use.SetPHPVersion`) are module-level methods that
take the `Host` object and call its primitives in the code's order. Each is
specified against pure functions of the old state (`WithStore`,
`Finalise`, `Resolve`, `Decide`, `Repointed`) and, for the cache step,
against the predicate `FetchedOrReused`, which relates the old state to
the new one. The properties are lemmas about those functions and that
predicate.

Modules, in dependency order:

- `Wrappers` holds `Option`.
- `Seqs` holds `FirstIndex`, which models `Array.prototype.find` and
  `Object.keys(...).find`.
- `Strings` holds `startsWith`, `endsWith`, `includes`, and `replace`
  with a global literal pattern. The replacement is characterised through
  `split`/`join`.
- `IniFile` holds the `php.ini` rewrite.
- `Catalog` holds resolution.
- `Paths` holds the on-disk layout.
- `Platform` holds the `Host` object.
- `Install` holds `createPvm`, `decompressPhpZip` and `downloadPHP`.
- `Use` holds `setPHPVersion`.

## What the code does and does not do

- Resolution takes the **first** catalog entry, in key order, whose
  `version` starts with the spec; versions are never compared or sorted
  (`Catalog.FirstMatchNotHighest`). An entry with an empty key is falsy,
  so it reads as "not found".
- The cache check is a **case-sensitive substring** test of the hash
  tool's whole output (`hash.includes(sha256)`), not a comparison of the
  digest alone (`Install.DigestMatchIsCaseSensitive`). Output that shows
  the digest in upper case never matches a lower-case catalog digest.
- A freshly downloaded archive is never hashed.
- There is no retry, no temporary file and rename, no staging directory
  and no completion marker: an existing version directory is reused as
  it is.
- Activation is `rmdir` followed by `mklink`. If `rmdir` succeeds and
  `mklink` fails, no link is left (`Use.RepointedEffect`).
- Errors are not distinct exception types. Inside `downloadPHP` one
  `try/catch` (index.js:181-248) logs whatever is thrown. Three failures
  escape as rejections of the command's promise instead: a `mkdirSync`
  in `createPvm`, which runs before the `try` (index.js:179); a throwing
  `readdirSync` in `setPHPVersion` (index.js:67); and the `reject()` of a
  failed `mklink` (index.js:94). Each path is a value of `InstallOutcome`,
  `FinaliseStatus` or `UseOutcome`.

## Model

| member | source | states |
|---|---|---|
| Seqs.FirstIndex | index.js:185-187 | `find` returns the least index whose element satisfies the predicate, or none when no element does |
| Strings.StartsWith | index.js:186 | `startsWith`: the text's first characters are the prefix |
| Strings.EndsWith | index.js:203 | `endsWith`: the text's last characters are the suffix |
| Strings.Contains | index.js:220 | `includes`: the needle starts at the first character or occurs in the rest |
| Strings.ReplaceAll | index.js:140 | `replace` with a global literal pattern: a left-to-right scan that replaces each occurrence and resumes after it |
| Strings.Split | index.js:140 | the text cut at the leftmost non-overlapping occurrences of the pattern, always at least one piece |
| Strings.Join | index.js:140 | the pieces joined with a separator |
| Strings.ContainsIff | index.js:220 | `includes` holds exactly when the needle occurs at some position of the text |
| Strings.ReplaceAllIsSplitJoin | index.js:140 | a global literal replace equals splitting at the pattern and joining with the replacement |
| Strings.SplitJoin | index.js:140 | joining the split pieces with the pattern gives back the original text |
| Strings.SplitPiecesFree | index.js:140 | no piece of the split contains the pattern |
| Strings.SplitLeftmost | index.js:140 | each cut is leftmost: a piece followed by all but the last character of the pattern holds no occurrence |
| Strings.SplitAbsent | index.js:140 | the split has a single piece exactly when the text lacks the pattern |
| Strings.JoinLengths | index.js:140 | joining with one separator instead of another changes the length by the difference once per gap |
| Strings.ReplaceAllUnchangedIff | index.js:140 | when the replacement's length differs from the pattern's, the replace changes the text exactly when the pattern occurs |
| Strings.ReplaceAllOnePass | index.js:140 | the replace is a single left-to-right pass: it turns c followed by c+rep into c+rep, which still holds the pattern |
| IniFile.CommentedExtensionDir | index.js:140 | the pattern of the rewrite, `;extension_dir = "ext"` |
| IniFile.ExtensionDir | index.js:140 | the replacement, `extension_dir = "ext"` |
| IniFile.EnableExtensionDir | index.js:140 | the `php.ini` rewrite: each `;extension_dir = "ext"` becomes `extension_dir = "ext"` |
| IniFile.Occurrences | index.js:140 | the number of commented directives the rewrite enables |
| IniFile.EnableExtensionDirPieces | index.js:140 | the ini is its pieces joined by `;extension_dir = "ext"`, the result is the same pieces joined by `extension_dir = "ext"`, the pieces hold no directive and the cuts are leftmost |
| IniFile.EnableExtensionDirLength | index.js:140 | the rewrite removes exactly one character, the semicolon, per occurrence |
| IniFile.EnableExtensionDirUnchangedIff | index.js:140 | the rewrite leaves the ini unchanged exactly when it holds no commented directive |
| IniFile.EnableExtensionDirSinglePass | index.js:140 | `;;extension_dir = "ext"` becomes `;extension_dir = "ext"`, which a second rewrite changes again |
| Catalog.BasePath | index.js:9 | `https://windows.php.net/downloads/releases/`, the base of the catalog and of every archive URL |
| Catalog.CatalogUrl | index.js:182 | the catalog is fetched from the base path followed by `releases.json` |
| Catalog.ArchOs | index.js:176-177 | the mapping is total, yields `x64` or `x86`, and yields `x64` exactly for `x64` |
| Catalog.ResolveRelease | index.js:185-191 | the release found is that of the first entry whose version starts with the spec; nothing is found only when that first entry is missing or has an empty key |
| Catalog.SelectBuild | index.js:201-204 | the build found is the first member whose key starts with `ts-v` and ends with `-<os>`; nothing is found exactly when no key has that form |
| Catalog.ResolveNoVersionIff | index.js:185-191 | resolution stops with "not found" exactly when no first matching entry with a non-empty key exists |
| Catalog.ResolveFromFirstMatch | index.js:185-193 | a resolution past the version step is what the first matching entry's release offers |
| Catalog.ThreadSafeKey | index.js:203 | a key names a thread-safe build for os when it starts with `ts-v` and ends with `-<os>` |
| Catalog.FromRelease | index.js:193-214 | what a found release offers: no build, a build without a zip, or the archive URL and digest, all under the release's full version |
| Catalog.Resolve | index.js:185-214 | the whole resolution: not found, or what the first matching release offers |
| Catalog.FirstThreadSafeUnique | index.js:202-204 | at most one member is the first thread-safe build |
| Catalog.FromReleaseEffect | index.js:193-214 | the outcome carries the release's full version; the build is missing exactly when no thread-safe key for the os exists; the archive is found exactly when the first such build has a zip, and the zip is missing exactly when it has none; the URL is the base path followed by that build's `zip.path`, and the digest is its `zip.sha256` |
| Catalog.FirstMatchNotHighest | index.js:185-187 | with 8.2.1, 8.2.3 and 8.1.9 in that order, spec `8.2` resolves to 8.2.1 |
| Paths.PvmDir | index.js:7 | the pvm root `C:\Users\<user>\pvm\` |
| Paths.PhpRoot | index.js:166 | the version store, the pvm root followed by `php\` |
| Paths.SymLinkPath | index.js:8 | the link, the pvm root followed by `sym\` |
| Paths.VersionDir | index.js:194 | a version's directory, the store followed by the full version and a separator |
| Paths.LinkTarget | index.js:76 | the mklink target, the store followed by the version with no trailing separator |
| Paths.ZipPath | index.js:132-134 | the archive `php.zip` inside a version directory |
| Paths.IniTemplatePath | index.js:136 | `php.ini-development` inside a version directory |
| Paths.IniPath | index.js:136-141 | `php.ini` inside a version directory |
| Paths.VersionDirInjective | index.js:194 | different full versions get different version directories |
| Paths.FinaliseNamesDistinct | index.js:134-141 | `php.zip`, `php.ini` and `php.ini-development` under one directory are three paths |
| Paths.SymLinkOutsideStore | index.js:75-76 | no path under the version store is the `sym\` link |
| Platform.Unpacked | index.js:132 | after extraction a path exists exactly when it existed or is a member's path; member paths hold the member's contents and all others are unchanged |
| Platform.Host.Exists | index.js:163 | `existsSync`: the path has an entry of any kind |
| Platform.Host.MkDir | index.js:163-167 | `mkdirSync` adds one directory and changes nothing else |
| Platform.Host.Unlink | index.js:134 | `unlinkSync` succeeds exactly on an existing non-directory, which it removes |
| Platform.Host.CopyFile | index.js:136 | `copyFileSync` succeeds exactly when the source is a file and the destination is not a directory, and then copies it |
| Platform.Host.ReadFile | index.js:139 | `readFileSync` returns the file's contents |
| Platform.Host.WriteFile | index.js:141 | `writeFileSync` sets the path to a file with the given contents |
| Platform.Host.Extract | index.js:132 | `decompress` writes the members under the directory |
| Platform.Host.Issue | index.js:219 | a fetch or hash command is appended to the trace and changes nothing else |
| Platform.Host.RemoveDirectory | index.js:75-87 | `rmdir` is traced and removes the path only when it succeeds |
| Platform.Host.CreateLink | index.js:89-100 | `mklink` is traced and, on success, sets the link to the target |
| Platform.Host.SetVariable | index.js:147-156 | `setx` is traced and, on success, sets the user variable |
| Install.EnsureDir | index.js:196-197 | the path exists afterwards, is a new directory only if it was absent, and no other path changes |
| Install.WithStore | index.js:162-168 | the file system after createPvm: the pvm root, then the version store, each created only if absent |
| Install.WithStoreEffect | index.js:162-168 | createPvm keeps every existing entry, ensures the pvm root and the version store, and adds nothing else |
| Install.WithStoreIdempotent | index.js:162-168 | running createPvm twice is the same as running it once |
| Install.CreatePvm | index.js:162-168 | the file system becomes WithStore of the old one; environment and trace are unchanged |
| Install.Finalise | index.js:130-142 | the status and file system after decompressPhpZip, as a function of the old file system and the archive's members |
| Install.FinaliseEffect | index.js:130-142 | an unreadable archive changes nothing; otherwise `php.zip` is gone, every other path except `php.ini` is as extraction left it, success happens exactly when `php.ini-development` is a file after extraction and `php.ini` is not a directory, and on success `php.ini` is the rewrite of `php.ini-development` (the archive's member if present, else the file already there) |
| Install.DecompressPhpZip | index.js:130-142 | the status and file system are exactly Finalise of the old file system |
| Install.Decide | index.js:217-228 | the cache decision: download when there is no zip, fail when the hash tool fails, reuse when the output contains the digest, fail when the mismatched zip cannot be removed, else replace it |
| Install.ReuseIff | index.js:217-222 | the zip is reused exactly when it exists, the hash tool succeeded, and its output contains the digest at some position |
| Install.DigestMatchIsCaseSensitive | index.js:220 | output showing the digest in upper case does not match a lower-case digest, so the zip is replaced |
| Install.DownloadPHP | index.js:175-249 | a failed catalog fetch or an unmatched spec leaves only the bootstrapped store and the catalog fetch; a missing build or zip leaves the version directory (named by the full version) behind; a found build goes on to the cache step |
| Install.ObtainAndFinalise | index.js:216-243 | the cache check, any download, and the finalisation, as FetchedOrReused describes them |
| Install.FetchedOrReused | index.js:216-243 | the state after the cache step: hash-tool failure or an unremovable mismatch leave the file system as it was; reuse finalises the cached zip; otherwise the downloaded bytes are written to `php.zip`, the archive fetch is traced, and the result is finalised |
| Install.FetchedOrReusedOutcome | index.js:216-243 | the outcome is finished, hash-tool failure or stale zip not removable, each exactly in its case: reuse exactly when the zip exists and the output contains the digest; a new download exactly when the zip is missing, or mismatched and removable; hash-tool failure exactly when the zip exists and the tool fails; an unremovable zip exactly when it mismatches and is a directory |
| Install.FetchedOrReusedTrace | index.js:216-243 | earlier commands are kept; the archive is fetched, from exactly the resolved URL and as the last command, exactly when the install finishes without reuse |
| Install.FetchedOrReusedRemovesZip | index.js:222-243 | both paths end in decompressPhpZip, after which `php.zip` is gone unless the archive could not be read |
| Use.SymLinkVariable | index.js:148 | the user variable createSym sets, `PHP_SYMLINK` |
| Use.SelectInstalled | index.js:67-73 | the version chosen is the first installed directory whose name starts with the spec; none is chosen only when that first one is missing or empty |
| Use.Repointed | index.js:75-100 | the file system after rmdir (removing the link only if it succeeds) and then mklink (setting the link only if it succeeds) |
| Use.RepointedEffect | index.js:75-100 | repointing changes no path other than the link, so the version store is untouched; a successful mklink leaves the link pointing at the version; if both commands fail nothing changes; if rmdir succeeds and mklink fails no link is left |
| Use.SetPHPVersion | index.js:66-105 | with no match nothing runs; otherwise rmdir then mklink always run; a failed mklink stops the command before setx and the environment is unchanged; a successful one issues setx, which alone decides the new `PHP_SYMLINK` |

## Left out

- HTTP through axios is not modelled; the catalog and the archive bytes
  are inputs, and the archive fetch always delivers bytes. This drops two
  behaviours. A failed archive request rejects the `.then` chain at
  index.js:232-240, which has no handler, while the awaited promise stays
  pending: the process ends (on an unhandled rejection, or once its event
  loop is empty) without running decompressPhpZip, and the `try/catch`
  never sees the error. The awaited promise resolves on the response's
  `end`, not on the file stream's completion, so a write may not be
  flushed. The model treats a completed fetch as writing the whole
  archive.
- The `exec` shell-outs (`Get-FileHash`, `rmdir`, `mklink` via
  `start-process -verb runas`, `setx`) are modelled by their reported
  success and output only.
- Platform.Host.CreateLink: takes the reported success of the elevated
  `start-process` as the link being created, although that call returns
  before the detached `mklink` runs.
- Platform.Host.SetVariable: `createSym` is not awaited. The model applies
  `setx` in sequence, at the end of `setPHPVersion`.
- SHA-256 is not modelled. The hash tool's output is an opaque string.
- Platform.Unpacked: treats the archive as a flat map from member names
  to file contents. It does not model the directories `decompress`
  creates, nor the partial writes of a failed extraction.
- The `USERNAME` environment variable and `process.arch` are parameters.
- Use.SetPHPVersion: the directory listing is an input not tied to the
  file map, so the model does not promise that the chosen version has a
  directory under `php\`; `readdirSync` of `php\` would only ever list
  entries that are there.
- File contents are Dafny strings. `readFileSync(…, 'utf8')` at
  index.js:139 decodes bytes and replaces invalid UTF-8 sequences, which
  the write at index.js:141 then keeps; that lossy decode is not modelled.
- Paths are exact strings. Windows matches paths without regard to case
  and to a trailing separator; the file map does not.
- `Object.keys` order is taken as the order of the catalog sequence.
- Install.DownloadPHP: every catalog entry is assumed to have a string
  `version`, because a missing `version` (a TypeError) is a schema
  violation outside the model. Likewise a build's `zip.path` and
  `zip.sha256` are assumed to be strings: with `path` missing the code
  would fetch `…/releases/undefined`, and with `sha256` missing it would
  test `hash.includes(undefined)`, that is, search for the text
  `undefined`. A build without a `zip` member is modelled as the
  TypeError the `try/catch` swallows (`ArtifactMalformed`).
- The file map has no notion of a parent directory. Platform.Host.MkDir,
  Platform.Host.WriteFile, Platform.Host.CopyFile and Platform.Host.Extract
  succeed whether or not the parent of the path exists and is a
  directory, so the errors of `mkdirSync` (in createPvm and at
  index.js:197), `copyFileSync`, `writeFileSync`, `decompress`, and the
  `'error'` event of `createWriteStream` at index.js:236 on a missing or
  non-directory parent are not modelled. For example, a version directory
  that is a plain file still reaches `Finished` in the model.
- `listDownloadablePHPVersions` and `listUsablePHPVersions` are left out.
  They are console output over a fetch or a directory listing.
- Console messages are left out; `try/catch` is modelled only as the
  outcome values.
- bin/pvm.js is left out. It only wires command-line commands to these
  functions.
