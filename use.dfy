/** The `use` command (setPHPVersion): pick an installed version by prefix,
    then repoint the `sym\` link through rmdir and an elevated mklink, then
    record the link in the PHP_SYMLINK user variable (createSym). */
module Use {
  import opened Wrappers
  import opened Strings
  import opened Seqs
  import opened Paths
  import opened Platform

  /** The user variable createSym sets. */
  const SymLinkVariable: string := "PHP_SYMLINK"

  /** Entry i of the listing is the first whose name starts with spec. */
  ghost predicate IsFirstInstalled(dirs: seq<string>, spec: string, i: int)
  {
    0 <= i < |dirs| && StartsWith(dirs[i], spec)
    && forall j :: 0 <= j < i ==> !StartsWith(dirs[j], spec)
  }

  /** `dirs.find(dir => dir.startsWith(version))` followed by
      `if (!version)`: the first matching directory name, an empty name
      being falsy. */
  function SelectInstalled(dirs: seq<string>, spec: string): (r: Option<string>)
    ensures r.Some? ==> exists i :: IsFirstInstalled(dirs, spec, i) && r.value == dirs[i] && r.value != ""
    ensures r.None? ==> forall i :: IsFirstInstalled(dirs, spec, i) ==> dirs[i] == ""
  {
    match FirstIndex(dirs, (d: string) => StartsWith(d, spec))
    case None => None
    case Some(i) =>
      assert IsFirstInstalled(dirs, spec, i);
      if dirs[i] == "" then None else Some(dirs[i])
  }

  /** The file system after the link steps: rmdir (its failure tolerated)
      then mklink. */
  function Repointed(fs: FileMap, link: string, target: string, rmdirOk: bool, mklinkOk: bool): FileMap
  {
    var cleared := if rmdirOk then fs - {link} else fs;
    if mklinkOk then cleared[link := Link(target)] else cleared
  }

  /** Repointing touches only the link, so nothing in the version store: on
      success the link points at the target, and when both commands fail
      the file system is as it was; when rmdir succeeds and mklink fails,
      no link is left at all. */
  lemma RepointedEffect(fs: FileMap, user: string, target: string, rmdirOk: bool, mklinkOk: bool)
    ensures var r := Repointed(fs, SymLinkPath(user), target, rmdirOk, mklinkOk);
      && (forall p :: p != SymLinkPath(user) ==> (p in r <==> p in fs) && (p in fs ==> r[p] == fs[p]))
      && (forall p :: StartsWith(p, PhpRoot(user)) ==> (p in r <==> p in fs) && (p in fs ==> r[p] == fs[p]))
      && (mklinkOk ==> r[SymLinkPath(user)] == Link(target))
      && (!rmdirOk && !mklinkOk ==> r == fs)
      && (rmdirOk && !mklinkOk ==> SymLinkPath(user) !in r)
  {
    forall p | StartsWith(p, PhpRoot(user))
      ensures p != SymLinkPath(user)
    {
      SymLinkOutsideStore(user, p);
    }
  }

  datatype UseOutcome =
    | ListingFailed             // readdirSync threw
    | NotInstalled              // no directory name starts with the spec
    | LinkFailed(version: string)  // the elevated mklink failed; the promise rejects
    | Activated(version: string)

  /** `setPHPVersion(version)`. The directory listing (None when readdirSync
      throws) and the success of rmdir, mklink and setx are inputs. */
  method SetPHPVersion(h: Host, user: string, spec: string, listing: Option<seq<string>>,
                       rmdirOk: bool, mklinkOk: bool, setxOk: bool)
    returns (o: UseOutcome)
    modifies h
    ensures listing.None? ==>
      o == ListingFailed && h.fs == old(h.fs) && h.env == old(h.env) && h.trace == old(h.trace)
    ensures listing.Some? ==>
      match SelectInstalled(listing.value, spec)
      case None =>
        o == NotInstalled && h.fs == old(h.fs) && h.env == old(h.env) && h.trace == old(h.trace)
      case Some(v) =>
        var link := SymLinkPath(user);
        var target := LinkTarget(user, v);
        var linkSteps := old(h.trace) + [RemoveDir(link), MakeLink(link, target)];
        && h.fs == Repointed(old(h.fs), link, target, rmdirOk, mklinkOk)
        && (mklinkOk ==>
              && o == Activated(v)
              && h.trace == linkSteps + [SetUserVariable(SymLinkVariable, link)]
              && h.env == if setxOk then old(h.env)[SymLinkVariable := link] else old(h.env))
        && (!mklinkOk ==> o == LinkFailed(v) && h.trace == linkSteps && h.env == old(h.env))
  {
    if listing.None? {
      return ListingFailed;
    }
    var version := SelectInstalled(listing.value, spec);
    if version.None? {
      return NotInstalled;
    }
    var link := SymLinkPath(user);
    h.RemoveDirectory(link, rmdirOk);
    h.CreateLink(link, LinkTarget(user, version.value), mklinkOk);
    if !mklinkOk {
      return LinkFailed(version.value);
    }
    h.SetVariable(SymLinkVariable, link, setxOk);
    return Activated(version.value);
  }
}
