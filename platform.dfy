/** The machine the commands act on: the file system as a map from path to
    entry, the user's persistent environment variables, and the ordered
    trace of external commands issued (network fetches and shell-outs).
    Each primitive mirrors one Node.js call; the outcome of a foreign
    command is an input. */
module Platform {

  datatype Entry = Dir | File(content: string) | Link(target: string)

  type FileMap = map<string, Entry>

  /** External commands, in the order the code issues them. */
  datatype Command =
    | FetchCatalog(url: string)
    | FetchArchive(url: string)
    | HashFile(path: string)
    | RemoveDir(path: string)
    | MakeLink(link: string, target: string)
    | SetUserVariable(name: string, value: string)

  predicate IsFile(fs: FileMap, p: string)
  {
    p in fs && fs[p].File?
  }

  /** Extraction into dir writes path p: p is dir followed by a member's name. */
  predicate Writes(dir: string, members: map<string, string>, p: string)
  {
    |dir| <= |p| && p[..|dir|] == dir && p[|dir|..] in members
  }

  /** The file system after the archive's members (name to contents) are
      written under dir: member files replace whatever was at their paths,
      every other path keeps its entry. */
  function Unpacked(fs: FileMap, dir: string, members: map<string, string>): (r: FileMap)
    ensures forall p :: p in r <==> p in fs || Writes(dir, members, p)
    ensures forall p :: p in r ==> r[p] == if Writes(dir, members, p) then File(members[p[|dir|..]]) else fs[p]
  {
    var targets := set n | n in members :: dir + n;
    assert forall p :: p in targets <==> Writes(dir, members, p) by {
      forall p ensures p in targets <==> Writes(dir, members, p) {
        if Writes(dir, members, p) {
          assert p == dir + p[|dir|..];
        }
      }
    }
    map p | p in fs.Keys + targets :: if Writes(dir, members, p) then File(members[p[|dir|..]]) else fs[p]
  }

  class Host {
    var fs: FileMap
    var env: map<string, string>
    var trace: seq<Command>

    constructor (fs0: FileMap, env0: map<string, string>)
      ensures fs == fs0 && env == env0 && trace == []
    {
      fs := fs0;
      env := env0;
      trace := [];
    }

    /** `fs.existsSync(p)`: any kind of entry. */
    predicate Exists(p: string)
      reads this
    {
      p in fs
    }

    /** `fs.mkdirSync(p)`, which the code only calls after `existsSync` is false. */
    method MkDir(p: string)
      requires p !in fs
      modifies this
      ensures fs == old(fs)[p := Dir]
      ensures env == old(env) && trace == old(trace)
    {
      fs := fs[p := Dir];
    }

    /** `fs.unlinkSync(p)`: fails (throws) on a missing path or a directory. */
    method Unlink(p: string) returns (ok: bool)
      modifies this
      ensures ok <==> p in old(fs) && !old(fs)[p].Dir?
      ensures fs == if ok then old(fs) - {p} else old(fs)
      ensures env == old(env) && trace == old(trace)
    {
      ok := p in fs && !fs[p].Dir?;
      if ok {
        fs := fs - {p};
      }
    }

    /** `fs.copyFileSync(src, dst)`: fails unless src is a file and dst is
        not a directory. */
    method CopyFile(src: string, dst: string) returns (ok: bool)
      modifies this
      ensures ok <==> IsFile(old(fs), src) && !(dst in old(fs) && old(fs)[dst].Dir?)
      ensures fs == if ok then old(fs)[dst := old(fs)[src]] else old(fs)
      ensures env == old(env) && trace == old(trace)
    {
      ok := IsFile(fs, src) && !(dst in fs && fs[dst].Dir?);
      if ok {
        fs := fs[dst := fs[src]];
      }
    }

    /** `fs.readFileSync(p, 'utf8')` of a file. */
    method ReadFile(p: string) returns (content: string)
      requires IsFile(fs, p)
      ensures File(content) == fs[p]
    {
      content := fs[p].content;
    }

    /** `fs.writeFileSync(p, content)` (and a finished write stream): creates
        or overwrites a file; the code never aims it at a directory. */
    method WriteFile(p: string, content: string)
      requires !(p in fs && fs[p].Dir?)
      modifies this
      ensures fs == old(fs)[p := File(content)]
      ensures env == old(env) && trace == old(trace)
    {
      fs := fs[p := File(content)];
    }

    /** The `decompress` library writing the archive's members under dir. */
    method Extract(dir: string, members: map<string, string>)
      modifies this
      ensures fs == Unpacked(old(fs), dir, members)
      ensures env == old(env) && trace == old(trace)
    {
      fs := Unpacked(fs, dir, members);
    }

    /** Issues a command whose result the caller receives as an input
        (a fetch, or the hash tool). */
    method Issue(c: Command)
      requires !c.RemoveDir? && !c.MakeLink? && !c.SetUserVariable?
      modifies this
      ensures trace == old(trace) + [c]
      ensures fs == old(fs) && env == old(env)
    {
      trace := trace + [c];
    }

    /** `rmdir "<p>"`; ok is the command's success. */
    method RemoveDirectory(p: string, ok: bool)
      modifies this
      ensures trace == old(trace) + [RemoveDir(p)]
      ensures fs == if ok then old(fs) - {p} else old(fs)
      ensures env == old(env)
    {
      trace := trace + [RemoveDir(p)];
      if ok {
        fs := fs - {p};
      }
    }

    /** `mklink /D <link> <target>` run through an elevation prompt; ok is
        the command's reported success. */
    method CreateLink(link: string, target: string, ok: bool)
      modifies this
      ensures trace == old(trace) + [MakeLink(link, target)]
      ensures fs == if ok then old(fs)[link := Link(target)] else old(fs)
      ensures env == old(env)
    {
      trace := trace + [MakeLink(link, target)];
      if ok {
        fs := fs[link := Link(target)];
      }
    }

    /** `setx <name> '<value>'`; ok is the command's success. */
    method SetVariable(name: string, value: string, ok: bool)
      modifies this
      ensures trace == old(trace) + [SetUserVariable(name, value)]
      ensures env == if ok then old(env)[name := value] else old(env)
      ensures fs == old(fs)
    {
      trace := trace + [SetUserVariable(name, value)];
      if ok {
        env := env[name := value];
      }
    }
  }
}
