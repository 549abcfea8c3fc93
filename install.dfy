/** The `install` command: bootstrapping the store (createPvm), resolving
    and fetching or reusing the archive (downloadPHP), and finalising the
    extracted tree (decompressPhpZip). */
module Install {
  import opened Wrappers
  import opened Strings
  import opened IniFile
  import opened Catalog
  import opened Paths
  import opened Platform

  /** `mkdirSync(p)` guarded by `existsSync(p)`. */
  function EnsureDir(fs: FileMap, p: string): (r: FileMap)
    ensures p in r && (p in fs ==> r[p] == fs[p]) && (p !in fs ==> r[p] == Dir)
    ensures forall q :: q != p ==> (q in r <==> q in fs) && (q in fs ==> r[q] == fs[q])
  {
    if p in fs then fs else fs[p := Dir]
  }

  /** The file system after createPvm: the pvm root and the version store
      exist, whatever was there before stays. */
  function WithStore(fs: FileMap, user: string): FileMap
  {
    EnsureDir(EnsureDir(fs, PvmDir(user)), PhpRoot(user))
  }

  /** createPvm adds at most the two store directories and changes nothing
      already present. */
  lemma WithStoreEffect(fs: FileMap, user: string)
    ensures var r := WithStore(fs, user);
      && PvmDir(user) in r && PhpRoot(user) in r
      && (forall p :: p in fs ==> p in r && r[p] == fs[p])
      && (forall p :: p in r && p !in fs ==> r[p] == Dir && (p == PvmDir(user) || p == PhpRoot(user)))
  {
  }

  /** createPvm is idempotent. */
  lemma WithStoreIdempotent(fs: FileMap, user: string)
    ensures WithStore(WithStore(fs, user), user) == WithStore(fs, user)
  {
  }

  /** `createPvm()`. */
  method CreatePvm(h: Host, user: string)
    modifies h
    ensures h.fs == WithStore(old(h.fs), user)
    ensures h.env == old(h.env) && h.trace == old(h.trace)
  {
    if !h.Exists(PvmDir(user)) {
      h.MkDir(PvmDir(user));
    }
    if !h.Exists(PhpRoot(user)) {
      h.MkDir(PhpRoot(user));
    }
  }

  /** What the `decompress` library makes of an archive's bytes: it fails,
      or yields its members by name. */
  datatype Archive = Corrupt | Members(files: map<string, string>)

  datatype FinaliseStatus =
    | Finalised        // php.ini written
    | ArchiveUnreadable  // decompress rejected; nothing written
    | IniNotCopied     // copyFileSync threw; the zip is already gone

  /** The specification of decompressPhpZip: the status and the resulting
      file system. */
  function Finalise(fs: FileMap, dir: string, unzip: string -> Archive): (FinaliseStatus, FileMap)
  {
    var zip := ZipPath(dir);
    if !IsFile(fs, zip) then (ArchiveUnreadable, fs)
    else
      match unzip(fs[zip].content)
      case Corrupt => (ArchiveUnreadable, fs)
      case Members(m) =>
        var unpacked := Unpacked(fs, dir, m) - {zip};
        var template := IniTemplatePath(dir);
        var ini := IniPath(dir);
        if IsFile(unpacked, template) && !(ini in unpacked && unpacked[ini].Dir?) then
          (Finalised, unpacked[ini := File(EnableExtensionDir(unpacked[template].content))])
        else
          (IniNotCopied, unpacked)
  }

  /** After decompressPhpZip: an unreadable archive changes nothing;
      otherwise php.zip is gone, and on success php.ini holds the rewrite
      of php.ini-development as extraction left it (the archive's member
      if it has one, else the file already there); every other path is as
      extraction left it. The copy, and so success, happens exactly when
      php.ini-development is a file after extraction and php.ini is not a
      directory. */
  lemma FinaliseEffect(fs: FileMap, dir: string, unzip: string -> Archive)
    ensures var (status, after) := Finalise(fs, dir, unzip);
      var zip := ZipPath(dir);
      && (status == ArchiveUnreadable <==> !IsFile(fs, zip) || unzip(fs[zip].content).Corrupt?)
      && (status == ArchiveUnreadable ==> after == fs)
      && (status != ArchiveUnreadable ==>
            var m := unzip(fs[zip].content).files;
            var unpacked := Unpacked(fs, dir, m);
            && zip !in after
            && (status == Finalised <==>
                  ("php.ini-development" in m || IsFile(fs, IniTemplatePath(dir)))
                  && !("php.ini" !in m && IniPath(dir) in fs && fs[IniPath(dir)].Dir?))
            && (forall p :: p != zip && p != IniPath(dir) ==>
                  (p in after <==> p in unpacked) && (p in after ==> after[p] == unpacked[p]))
            && (status == Finalised ==>
                  var template := if "php.ini-development" in m then m["php.ini-development"]
                                  else fs[IniTemplatePath(dir)].content;
                  after[IniPath(dir)] == File(EnableExtensionDir(template))))
  {
    FinaliseNamesDistinct(dir);
    var zip := ZipPath(dir);
    if IsFile(fs, zip) && unzip(fs[zip].content).Members? {
      var template := IniTemplatePath(dir);
      assert template[|dir|..] == "php.ini-development";
    }
  }

  /** `decompressPhpZip(versionDir)`: extract, remove php.zip, copy
      php.ini-development to php.ini, and enable the extension directory. */
  method DecompressPhpZip(h: Host, dir: string, unzip: string -> Archive) returns (status: FinaliseStatus)
    modifies h
    ensures (status, h.fs) == Finalise(old(h.fs), dir, unzip)
    ensures h.env == old(h.env) && h.trace == old(h.trace)
  {
    var zip := ZipPath(dir);
    if !IsFile(h.fs, zip) {
      return ArchiveUnreadable;
    }
    var bytes := h.ReadFile(zip);
    match unzip(bytes)
    case Corrupt =>
      return ArchiveUnreadable;
    case Members(m) =>
      ghost var unpacked := Unpacked(old(h.fs), dir, m) - {zip};
      h.Extract(dir, m);
      FinaliseNamesDistinct(dir);
      var removed := h.Unlink(zip);
      assert removed;
      var copied := h.CopyFile(IniTemplatePath(dir), IniPath(dir));
      if !copied {
        return IniNotCopied;
      }
      assert h.fs == unpacked[IniPath(dir) := unpacked[IniTemplatePath(dir)]];
      var ini := h.ReadFile(IniPath(dir));
      assert ini == unpacked[IniTemplatePath(dir)].content;
      h.WriteFile(IniPath(dir), EnableExtensionDir(ini));
      assert h.fs == unpacked[IniPath(dir) := File(EnableExtensionDir(ini))];
      assert unzip(old(h.fs)[zip].content) == Members(m);
      assert IsFile(unpacked, IniTemplatePath(dir));
      assert Finalise(old(h.fs), dir, unzip) == (Finalised, unpacked[IniPath(dir) := File(EnableExtensionDir(ini))]);
      return Finalised;
  }

  /** The decision about an existing php.zip, taken once the archive's
      digest is known. */
  datatype CacheDecision =
    | DownloadFresh   // no php.zip yet
    | HashToolError   // Get-FileHash failed; the promise rejects
    | ReuseZip        // the hash output contains the digest
    | RemoveFails     // mismatch, and unlinkSync throws on what is there
    | ReplaceZip      // mismatch: unlink, then download again

  /** `existsSync(zip)`, then `hash.includes(sha256)`, then `unlinkSync`. */
  function Decide(fs: FileMap, zip: string, hashOutput: Option<string>, sha256: string): CacheDecision
  {
    if zip !in fs then DownloadFresh
    else if hashOutput.None? then HashToolError
    else if Contains(hashOutput.value, sha256) then ReuseZip
    else if fs[zip].Dir? then RemoveFails
    else ReplaceZip
  }

  /** An existing php.zip is reused exactly when the hash tool's output has
      the expected digest at some position, character for character. */
  lemma ReuseIff(fs: FileMap, zip: string, hashOutput: Option<string>, sha256: string)
    ensures Decide(fs, zip, hashOutput, sha256) == ReuseZip <==>
            zip in fs && hashOutput.Some? && exists i :: OccursAt(hashOutput.value, sha256, i)
  {
    if hashOutput.Some? {
      ContainsIff(hashOutput.value, sha256);
    }
  }

  /** The comparison is case-sensitive: output that shows the digest in
      upper case does not match a lower-case digest, so the zip is
      downloaded again. */
  lemma DigestMatchIsCaseSensitive()
    ensures Decide(map["php.zip" := File("")], "php.zip", Some("SHA256 AB"), "ab") == ReplaceZip
  {
    var out := "SHA256 AB";
    assert !Contains(out, "ab") by {
      forall i | OccursAt(out, "ab", i)
        ensures out[i] == 'a'
      {
        assert out[i..i + 2][0] == out[i];
      }
      assert forall i :: 0 <= i < |out| ==> out[i] != 'a';
      ContainsIff(out, "ab");
    }
  }

  datatype InstallOutcome =
    | CatalogUnavailable         // the releases.json request failed
    | VersionNotFound            // no usable entry matches the spec
    | ArtifactNotFound(version: string)   // no thread-safe build for the architecture
    | ArtifactMalformed(version: string)  // the build has no zip member
    | HashToolFailed(version: string)
    | StaleZipNotRemoved(version: string)
    | Finished(version: string, reused: bool, status: FinaliseStatus)

  /** `downloadPHP(version)`. The catalog (None when the request fails),
      the hash tool's output (None when it fails), the downloaded bytes and
      what `decompress` makes of bytes are inputs. */
  method DownloadPHP(h: Host, user: string, spec: string, arch: string, catalog: Option<Catalog>,
                     hashOutput: Option<string>, downloaded: string, unzip: string -> Archive)
    returns (o: InstallOutcome)
    modifies h
    ensures h.env == old(h.env)
    ensures catalog.None? ==>
      o == CatalogUnavailable && h.fs == WithStore(old(h.fs), user)
      && h.trace == old(h.trace) + [FetchCatalog(CatalogUrl)]
    ensures catalog.Some? ==>
      var store := WithStore(old(h.fs), user);
      var fetched := old(h.trace) + [FetchCatalog(CatalogUrl)];
      match Resolve(catalog.value, spec, arch)
      case NoVersion => o == VersionNotFound && h.fs == store && h.trace == fetched
      case NoArtifact(v) =>
        o == ArtifactNotFound(v) && h.fs == EnsureDir(store, VersionDir(user, v)) && h.trace == fetched
      case NoZip(v) =>
        o == ArtifactMalformed(v) && h.fs == EnsureDir(store, VersionDir(user, v)) && h.trace == fetched
      case Found(v, url, sha) =>
        var dir := VersionDir(user, v);
        var ready := EnsureDir(store, dir);
        FetchedOrReused(ready, fetched, h.fs, h.trace, v, dir, url, sha, hashOutput, downloaded, unzip, o)
  {
    var os := ArchOs(arch);
    CreatePvm(h, user);
    h.Issue(FetchCatalog(CatalogUrl));
    if catalog.None? {
      return CatalogUnavailable;
    }
    var found := ResolveRelease(catalog.value, spec);
    if found.None? {
      return VersionNotFound;
    }
    var version := found.value.version;
    var dir := VersionDir(user, version);
    if !h.Exists(dir) {
      h.MkDir(dir);
    }
    var build := SelectBuild(found.value, os);
    if build.None? {
      return ArtifactNotFound(version);
    }
    if build.value.zip.None? {
      return ArtifactMalformed(version);
    }
    var zipUrl := BasePath + build.value.zip.value.path;
    var sha256 := build.value.zip.value.sha256;
    assert Resolve(catalog.value, spec, arch) == Found(version, zipUrl, sha256);
    o := ObtainAndFinalise(h, version, dir, zipUrl, sha256, hashOutput, downloaded, unzip);
  }

  /** The state after the archive for version v is reused or fetched into
      dir and finalised, starting from file system ready and trace before. */
  ghost predicate FetchedOrReused(ready: FileMap, before: seq<Command>, fs: FileMap, trace: seq<Command>,
                                  v: string, dir: string, url: string, sha: string,
                                  hashOutput: Option<string>, downloaded: string, unzip: string -> Archive,
                                  o: InstallOutcome)
  {
    var zip := ZipPath(dir);
    var hashed := if zip in ready then before + [HashFile(zip)] else before;
    match Decide(ready, zip, hashOutput, sha)
    case HashToolError => o == HashToolFailed(v) && fs == ready && trace == hashed
    case RemoveFails => o == StaleZipNotRemoved(v) && fs == ready && trace == hashed
    case ReuseZip =>
      var f := Finalise(ready, dir, unzip);
      o == Finished(v, true, f.0) && fs == f.1 && trace == hashed
    case _ =>
      var f := Finalise(ready[zip := File(downloaded)], dir, unzip);
      o == Finished(v, false, f.0) && fs == f.1 && trace == hashed + [FetchArchive(url)]
  }

  /** The cache check and download of downloadPHP, then decompressPhpZip. */
  method ObtainAndFinalise(h: Host, version: string, dir: string, zipUrl: string, sha256: string,
                           hashOutput: Option<string>, downloaded: string, unzip: string -> Archive)
    returns (o: InstallOutcome)
    modifies h
    ensures h.env == old(h.env)
    ensures FetchedOrReused(old(h.fs), old(h.trace), h.fs, h.trace, version, dir, zipUrl, sha256,
                            hashOutput, downloaded, unzip, o)
  {
    var zip := ZipPath(dir);
    ghost var ready := h.fs;
    if h.Exists(zip) {
      h.Issue(HashFile(zip));
      if hashOutput.None? {
        return HashToolFailed(version);
      }
      if Contains(hashOutput.value, sha256) {
        var status := DecompressPhpZip(h, dir, unzip);
        return Finished(version, true, status);
      }
      var removed := h.Unlink(zip);
      if !removed {
        return StaleZipNotRemoved(version);
      }
    }
    h.Issue(FetchArchive(zipUrl));
    h.WriteFile(zip, downloaded);
    assert h.fs == ready[zip := File(downloaded)];
    var status := DecompressPhpZip(h, dir, unzip);
    return Finished(version, false, status);
  }

  /** What the cache step decides: the zip is reused exactly when it
      exists and the hash output contains the digest; it is downloaded again
      exactly when it is missing, or its digest does not match and it can
      be removed; a failed hash tool and an unremovable mismatch stop the
      install; every finished install carries the resolved version. */
  lemma FetchedOrReusedOutcome(ready: FileMap, before: seq<Command>, fs: FileMap, trace: seq<Command>,
                               v: string, dir: string, url: string, sha: string,
                               hashOutput: Option<string>, downloaded: string, unzip: string -> Archive,
                               o: InstallOutcome)
    requires FetchedOrReused(ready, before, fs, trace, v, dir, url, sha, hashOutput, downloaded, unzip, o)
    ensures o.Finished? || o == HashToolFailed(v) || o == StaleZipNotRemoved(v)
    ensures o.Finished? ==> o.version == v
    ensures (o.Finished? && o.reused) <==> ZipPath(dir) in ready && hashOutput.Some? && Contains(hashOutput.value, sha)
    ensures (o.Finished? && !o.reused) <==>
              ZipPath(dir) !in ready
              || (hashOutput.Some? && !Contains(hashOutput.value, sha) && !ready[ZipPath(dir)].Dir?)
    ensures o == HashToolFailed(v) <==> ZipPath(dir) in ready && hashOutput.None?
    ensures o == StaleZipNotRemoved(v) <==>
              ZipPath(dir) in ready && hashOutput.Some? && !Contains(hashOutput.value, sha)
              && ready[ZipPath(dir)].Dir?
  {
  }

  /** The commands the cache step adds come after the earlier ones, and
      the archive is fetched, from exactly the resolved URL and as the last
      command, exactly when the install finishes without reuse. */
  lemma FetchedOrReusedTrace(ready: FileMap, before: seq<Command>, fs: FileMap, trace: seq<Command>,
                             v: string, dir: string, url: string, sha: string,
                             hashOutput: Option<string>, downloaded: string, unzip: string -> Archive,
                             o: InstallOutcome)
    requires FetchedOrReused(ready, before, fs, trace, v, dir, url, sha, hashOutput, downloaded, unzip, o)
    ensures |before| <= |trace| && trace[..|before|] == before
    ensures FetchArchive(url) in trace[|before|..] <==> o.Finished? && !o.reused
    ensures o.Finished? && !o.reused ==> trace[|trace| - 1] == FetchArchive(url)
  {
    var zip := ZipPath(dir);
    var d := Decide(ready, zip, hashOutput, sha);
    var hashed := if zip in ready then before + [HashFile(zip)] else before;
    assert hashed[..|before|] == before;
    assert FetchArchive(url) !in hashed[|before|..];
    if d == DownloadFresh || d == ReplaceZip {
      assert trace == hashed + [FetchArchive(url)];
      assert trace[|before|..] == hashed[|before|..] + [FetchArchive(url)];
    } else {
      assert trace == hashed;
    }
  }

  /** Both paths end in decompressPhpZip, after which php.zip is gone
      unless the archive could not be read. */
  lemma FetchedOrReusedRemovesZip(ready: FileMap, before: seq<Command>, fs: FileMap, trace: seq<Command>,
                                  v: string, dir: string, url: string, sha: string,
                                  hashOutput: Option<string>, downloaded: string, unzip: string -> Archive,
                                  o: InstallOutcome)
    requires FetchedOrReused(ready, before, fs, trace, v, dir, url, sha, hashOutput, downloaded, unzip, o)
    ensures o.Finished? && o.status != ArchiveUnreadable ==> ZipPath(dir) !in fs
  {
    var zip := ZipPath(dir);
    var d := Decide(ready, zip, hashOutput, sha);
    if d == ReuseZip {
      FinaliseEffect(ready, dir, unzip);
    } else if d == DownloadFresh || d == ReplaceZip {
      FinaliseEffect(ready[zip := File(downloaded)], dir, unzip);
    }
  }
}
