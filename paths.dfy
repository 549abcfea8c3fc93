/** The on-disk layout under the user's profile: the pvm root, the version
    store `php\`, one directory per full version, and the `sym\` link. */
module Paths {
  import opened Strings

  /** `C:\Users\${userName}\pvm\`. */
  function PvmDir(user: string): string
  {
    "C:\\Users\\" + user + "\\pvm\\"
  }

  /** `${pvmPath}php\`, the version store. */
  function PhpRoot(user: string): string
  {
    PvmDir(user) + "php\\"
  }

  /** `C:\Users\${userName}\pvm\sym\`, the link that `use` repoints. */
  function SymLinkPath(user: string): string
  {
    PvmDir(user) + "sym\\"
  }

  /** `${pvmPath}php\${version}\`. */
  function VersionDir(user: string, version: string): string
  {
    PhpRoot(user) + version + "\\"
  }

  /** `${pvmPath}php\${version}`, the mklink target (no trailing separator). */
  function LinkTarget(user: string, version: string): string
  {
    PhpRoot(user) + version
  }

  function ZipPath(dir: string): string { dir + "php.zip" }

  function IniTemplatePath(dir: string): string { dir + "php.ini-development" }

  function IniPath(dir: string): string { dir + "php.ini" }

  lemma ConcatCancel(a: string, b: string, c: string)
    requires a + b == a + c
    ensures b == c
  {
    assert b == (a + b)[|a|..];
    assert c == (a + c)[|a|..];
  }

  /** Different full versions get different directories. */
  lemma VersionDirInjective(user: string, v: string, w: string)
    requires VersionDir(user, v) == VersionDir(user, w)
    ensures v == w
  {
    var root := PhpRoot(user);
    assert root + v + "\\" == root + (v + "\\");
    assert root + w + "\\" == root + (w + "\\");
    ConcatCancel(root, v + "\\", w + "\\");
    assert v == (v + "\\")[..|v|];
    assert w == (w + "\\")[..|w|];
  }

  /** The three names decompressPhpZip works with are three different paths. */
  lemma FinaliseNamesDistinct(dir: string)
    ensures ZipPath(dir) != IniPath(dir)
    ensures ZipPath(dir) != IniTemplatePath(dir)
    ensures IniPath(dir) != IniTemplatePath(dir)
  {
    assert ZipPath(dir)[|dir| + 4] == 'z';
    assert IniPath(dir)[|dir| + 4] == 'i';
    assert |ZipPath(dir)| != |IniTemplatePath(dir)|;
    assert |IniPath(dir)| != |IniTemplatePath(dir)|;
  }

  /** The link lies outside the version store: no path under `php\` is the link. */
  lemma SymLinkOutsideStore(user: string, p: string)
    requires StartsWith(p, PhpRoot(user))
    ensures p != SymLinkPath(user)
  {
    var n := |PvmDir(user)|;
    assert PhpRoot(user)[n] == 'p';
    assert SymLinkPath(user)[n] == 's';
    assert p[n] == 'p';
  }
}
