/** Resolution of a user's version spec against the release catalog
    (releases.json), the host architecture, and the thread-safe build. */
module Catalog {
  import opened Wrappers
  import opened Strings
  import opened Seqs

  /** Where both the catalog and the archives are served from. */
  const BasePath: string := "https://windows.php.net/downloads/releases/"

  /** `${basePath}releases.json`. */
  const CatalogUrl: string := BasePath + "releases.json"

  /** The `zip` member of a build: the archive's path under BasePath and its
      expected SHA-256 digest as the catalog writes it. */
  datatype Zip = Zip(path: string, sha256: string)

  /** A member of a release other than `version`, such as `ts-vs16-x64` or
      `source`; a member without a `zip` object has zip == None. */
  datatype Artifact = Artifact(zip: Option<Zip>)

  /** A release: its full version string and its other members, in
      `Object.keys` order. */
  datatype Release = Release(version: string, artifacts: seq<(string, Artifact)>)

  /** The catalog object as `(key, release)` pairs in `Object.keys` order. */
  type Catalog = seq<(string, Release)>

  /** `process.arch === 'x64' ? 'x64' : 'x86'`. */
  function ArchOs(arch: string): (os: string)
    ensures os == "x64" || os == "x86"
    ensures os == "x64" <==> arch == "x64"
  {
    if arch == "x64" then "x64" else "x86"
  }

  /** A thread-safe build for os: `key.startsWith('ts-v') && key.endsWith('-' + os)`. */
  predicate ThreadSafeKey(key: string, os: string)
  {
    StartsWith(key, "ts-v") && EndsWith(key, "-" + os)
  }

  /** Entry i is the first, in key order, whose version starts with spec. */
  ghost predicate IsFirstRelease(cat: Catalog, spec: string, i: int)
  {
    0 <= i < |cat| && StartsWith(cat[i].1.version, spec)
    && forall j :: 0 <= j < i ==> !StartsWith(cat[j].1.version, spec)
  }

  /** Member j is the first thread-safe build of rel for os. */
  ghost predicate IsFirstThreadSafe(rel: Release, os: string, j: int)
  {
    0 <= j < |rel.artifacts| && ThreadSafeKey(rel.artifacts[j].0, os)
    && forall k :: 0 <= k < j ==> !ThreadSafeKey(rel.artifacts[k].0, os)
  }

  /** `Object.keys(data).find(key => data[key].version.startsWith(version))`
      followed by `if (!findVersion)`: the first matching entry, except that
      an empty key is falsy and reads as "not found" too. */
  function ResolveRelease(cat: Catalog, spec: string): (r: Option<Release>)
    ensures r.Some? ==> exists i :: IsFirstRelease(cat, spec, i) && cat[i].0 != "" && r.value == cat[i].1
    ensures r.None? ==> forall i :: IsFirstRelease(cat, spec, i) ==> cat[i].0 == ""
  {
    match FirstIndex(cat, (e: (string, Release)) => StartsWith(e.1.version, spec))
    case None => None
    case Some(i) =>
      assert IsFirstRelease(cat, spec, i);
      if cat[i].0 == "" then None else Some(cat[i].1)
  }

  /** `Object.keys(el).find(key => key.startsWith('ts-v') && key.endsWith('-' + os))`;
      a matching key is never empty, so falsiness plays no part here. */
  function SelectBuild(rel: Release, os: string): (r: Option<Artifact>)
    ensures r.Some? ==> exists j :: IsFirstThreadSafe(rel, os, j) && r.value == rel.artifacts[j].1
    ensures r.None? ==> forall j :: 0 <= j < |rel.artifacts| ==> !ThreadSafeKey(rel.artifacts[j].0, os)
  {
    match FirstIndex(rel.artifacts, (e: (string, Artifact)) => ThreadSafeKey(e.0, os))
    case None => None
    case Some(j) =>
      assert IsFirstThreadSafe(rel, os, j);
      Some(rel.artifacts[j].1)
  }

  /** What resolution decides before anything is downloaded. */
  datatype Resolution =
    | NoVersion
    | NoArtifact(version: string)
    | NoZip(version: string)
    | Found(version: string, url: string, sha256: string)

  /** Everything after the release is found: the build for the host's
      architecture, then the archive URL and digest. The release's full
      version replaces the spec. */
  function FromRelease(rel: Release, arch: string): Resolution
  {
    match SelectBuild(rel, ArchOs(arch))
    case None => NoArtifact(rel.version)
    case Some(a) =>
      match a.zip
      case None => NoZip(rel.version)
      case Some(z) => Found(rel.version, BasePath + z.path, z.sha256)
  }

  /** The whole resolution: the release, then what it offers. */
  function Resolve(cat: Catalog, spec: string, arch: string): Resolution
  {
    match ResolveRelease(cat, spec)
    case None => NoVersion
    case Some(rel) => FromRelease(rel, arch)
  }

  /** Resolution fails with "not found" exactly when the first entry whose
      version starts with the spec is missing or has an empty key. */
  lemma ResolveNoVersionIff(cat: Catalog, spec: string, arch: string)
    ensures Resolve(cat, spec, arch).NoVersion? <==>
            forall i :: IsFirstRelease(cat, spec, i) ==> cat[i].0 == ""
  {
    var r := ResolveRelease(cat, spec);
    if r.Some? {
      var i :| IsFirstRelease(cat, spec, i) && cat[i].0 != "" && r.value == cat[i].1;
    }
  }

  /** Once a release is found, the outcome is what that release offers: the
      first entry whose version starts with the spec, under a non-empty key. */
  lemma ResolveFromFirstMatch(cat: Catalog, spec: string, arch: string)
    requires !Resolve(cat, spec, arch).NoVersion?
    ensures exists i :: IsFirstRelease(cat, spec, i) && cat[i].0 != ""
              && Resolve(cat, spec, arch) == FromRelease(cat[i].1, arch)
  {
    var rel := ResolveRelease(cat, spec).value;
    var i :| IsFirstRelease(cat, spec, i) && cat[i].0 != "" && rel == cat[i].1;
  }

  /** Build j of rel is the first thread-safe one for os, and r names its
      archive: BasePath followed by the zip's path, and the zip's sha256. */
  ghost predicate BuiltFrom(rel: Release, os: string, r: Resolution, j: int)
    requires r.Found?
  {
    IsFirstThreadSafe(rel, os, j) && rel.artifacts[j].1.zip.Some?
    && r.url == BasePath + rel.artifacts[j].1.zip.value.path
    && r.sha256 == rel.artifacts[j].1.zip.value.sha256
  }

  /** There is at most one first thread-safe build. */
  lemma FirstThreadSafeUnique(rel: Release, os: string, j: int, k: int)
    requires IsFirstThreadSafe(rel, os, j) && IsFirstThreadSafe(rel, os, k)
    ensures j == k
  {
  }

  /** What a release offers carries its full version; the build is missing
      exactly when the release has no thread-safe key for the host's
      architecture; the archive is found exactly when the first such build
      has a zip, and is then that zip; the zip is missing exactly when the
      first such build has none. */
  lemma FromReleaseEffect(rel: Release, arch: string)
    ensures var r := FromRelease(rel, arch); var os := ArchOs(arch);
      && !r.NoVersion? && r.version == rel.version
      && (r.NoArtifact? <==> forall j :: 0 <= j < |rel.artifacts| ==> !ThreadSafeKey(rel.artifacts[j].0, os))
      && (r.Found? <==> exists j :: IsFirstThreadSafe(rel, os, j) && rel.artifacts[j].1.zip.Some?)
      && (r.NoZip? <==> exists j :: IsFirstThreadSafe(rel, os, j) && rel.artifacts[j].1.zip.None?)
      && (r.Found? ==> exists j :: BuiltFrom(rel, os, r, j))
  {
    var os := ArchOs(arch);
    var b := SelectBuild(rel, os);
    var r := FromRelease(rel, arch);
    if b.Some? {
      var j :| IsFirstThreadSafe(rel, os, j) && b.value == rel.artifacts[j].1;
      assert ThreadSafeKey(rel.artifacts[j].0, os);
      forall k | IsFirstThreadSafe(rel, os, k)
        ensures k == j
      {
        FirstThreadSafeUnique(rel, os, j, k);
      }
      if r.Found? {
        assert BuiltFrom(rel, os, r, j);
      }
    }
  }

  /** First match, not the highest version: with 8.2.1, 8.2.3 and 8.1.9 in
      that order, the spec "8.2" resolves to 8.2.1. */
  lemma FirstMatchNotHighest()
    ensures var cat := [("a", Release("8.2.1", [])), ("b", Release("8.2.3", [])), ("c", Release("8.1.9", []))];
      ResolveRelease(cat, "8.2") == Some(Release("8.2.1", []))
  {
    var cat := [("a", Release("8.2.1", [])), ("b", Release("8.2.3", [])), ("c", Release("8.1.9", []))];
    assert StartsWith(cat[0].1.version, "8.2");
    assert IsFirstRelease(cat, "8.2", 0);
  }
}
