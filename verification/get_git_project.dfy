/** `getgitproject_main`: the project (a directory with a `.git` entry) that a
    file or directory belongs to.

    The process environment and the filesystem are parameters: `Env` holds the
    logical working directory (`PWD`) and `os.getcwd()`, and `FileSystem`
    holds the paths that are regular files and the paths that exist. */
module GetGitProject {
  import opened Wrappers
  import opened StrOps
  import opened PosixPath

  /** The name of the entry that marks a project directory. */
  const Marker: string := ".git"

  /** `PWD` as the shell recorded it, and `os.getcwd()`. */
  datatype Env = Env(pwd: string, cwd: string)

  /** What `os.path.isfile` and `os.path.exists` see: the paths that are
      regular files, and every path that exists. */
  datatype FileSystem = FileSystem(files: set<string>, entries: set<string>)

  /** The error raised when no project contains the path; `filename` is the
      path the message reports. */
  datatype Error = NotInProject(filename: string)

  /** The text of the raised error. */
  function Message(e: Error): string
  {
    "Filename is not contained within a git project. Filename: " + e.filename + "."
  }

  /** `os.path.exists(os.path.join(dir, '.git'))`. */
  predicate HasMarker(fs: FileSystem, dir: string)
  {
    Join(dir, Marker) in fs.entries
  }

  /** A filesystem a real one could be: no existing path lies directly
      inside a regular file. */
  ghost predicate WellFormed(fs: FileSystem)
  {
    forall e :: e in fs.entries ==> Dirname(e) !in fs.files
  }

  /** The path the search resolves: the given name, or the working directory
      when none is given, joined onto `PWD` and made absolute and normal. */
  function Resolve(env: Env, filename: Option<string>): (r: string)
    requires IsAbs(env.cwd)
    ensures IsNormalized(r)
  {
    var name := if filename.None? then env.cwd else filename.value;
    AbsPath(env.cwd, Join(env.pwd, name))
  }

  /** The directory the upward search starts from: the resolved path's parent
      when the resolved path is a regular file, the resolved path itself
      otherwise (whether or not it exists). */
  function StartDir(env: Env, fs: FileSystem, filename: Option<string>): (r: string)
    requires IsAbs(env.cwd)
    ensures IsNormalized(r)
    ensures Resolve(env, filename) in fs.files ==> Comps(r) == DropLast(Comps(Resolve(env, filename)))
    ensures Resolve(env, filename) !in fs.files ==> r == Resolve(env, filename)
  {
    var resolved := Resolve(env, filename);
    if resolved in fs.files then
      DirnameNormalized(resolved);
      Dirname(resolved)
    else resolved
  }

  /** No ancestor-or-self of `cs` with more than `depth` components has a
      marker. */
  predicate NoMarkerBelow(fs: FileSystem, cs: seq<string>, depth: nat)
  {
    forall k :: depth < k <= |cs| ==> !HasMarker(fs, Render(cs[..k]))
  }

  /** `p` is the nearest project of `start`: an ancestor-or-self of `start`
      other than the root, with a marker, and with no marker on any directory
      between it and `start`. */
  predicate IsNearestProject(fs: FileSystem, start: seq<string>, p: seq<string>)
  {
    && p != []
    && p <= start
    && HasMarker(fs, Render(p))
    && NoMarkerBelow(fs, start, |p|)
  }

  /** The upward search over components. The root is never examined. */
  function Search(fs: FileSystem, cs: seq<string>): (r: Option<seq<string>>)
    ensures r.Some? ==> IsNearestProject(fs, cs, r.value)
    ensures r.None? <==> NoMarkerBelow(fs, cs, 0)
    decreases |cs|
  {
    if cs == [] then None
    else if HasMarker(fs, Render(cs)) then
      assert cs[..|cs|] == cs;
      Some(cs)
    else
      var parent := cs[..|cs| - 1];
      SearchParent(fs, cs);
      Search(fs, parent)
  }

  /** Markers below `depth` in the parent's ancestry are those of `cs`,
      except for `cs` itself. */
  lemma SearchParent(fs: FileSystem, cs: seq<string>)
    requires cs != []
    requires !HasMarker(fs, Render(cs))
    ensures forall d: nat :: d < |cs| ==> (NoMarkerBelow(fs, cs[..|cs| - 1], d) <==> NoMarkerBelow(fs, cs, d))
  {
    var parent := cs[..|cs| - 1];
    assert cs[..|cs|] == cs;
    forall k | 0 <= k <= |parent|
      ensures parent[..k] == cs[..k]
    {
    }
  }

  /** What `getgitproject_main` returns or raises: the nearest project of the
      start directory, or the error, which always reports the root. */
  function Find(env: Env, fs: FileSystem, filename: Option<string>): (r: Result<string, Error>)
    requires IsAbs(env.cwd)
    ensures r.Success? ==> IsNormalized(r.value)
    ensures r.Success? ==> IsNearestProject(fs, Comps(StartDir(env, fs, filename)), Comps(r.value))
    ensures r.Failure? <==> NoMarkerBelow(fs, Comps(StartDir(env, fs, filename)), 0)
    ensures r.Failure? ==> r.error == NotInProject("/")
  {
    var start := StartDir(env, fs, filename);
    match Search(fs, Comps(start))
    case Some(p) =>
      CompsRender(start);
      assert Normal(p) by {
        assert forall i :: 0 <= i < |p| ==> p[i] == Comps(start)[i];
      }
      RenderNormalized(p);
      Success(Render(p))
    case None => Failure(NotInProject("/"))
  }

  /** `getgitproject_main` step by step: resolve the name against `PWD`,
      step up from a regular file, then walk upward. `probes` counts the
      marker tests made: one per directory visited below the root, so at
      most one per component of the start directory. */
  method FindProject(env: Env, fs: FileSystem, filename: Option<string>)
    returns (r: Result<string, Error>, probes: nat)
    requires IsAbs(env.cwd)
    ensures r == Find(env, fs, filename)
    ensures probes <= |Comps(StartDir(env, fs, filename))|
    ensures r.Failure? ==> probes == |Comps(StartDir(env, fs, filename))|
    ensures r.Success? ==> probes == |Comps(StartDir(env, fs, filename))| - |Comps(r.value)| + 1
  {
    var name := if filename.None? then env.cwd else filename.value;
    name := AbsPath(env.cwd, Join(env.pwd, name));
    assert name == Resolve(env, filename);
    if name in fs.files {
      name := Dirname(name);
    }
    assert name == StartDir(env, fs, filename);
    FindBySearch(env, fs, filename);
    r, probes := WalkUp(fs, name);
  }

  /** The loop of `getgitproject_main`: while `dir` differs from its
      `dirname`, return it if it has a marker, else move to its parent; once
      at the root, fail, reporting the loop variable. */
  method WalkUp(fs: FileSystem, dir: string) returns (r: Result<string, Error>, probes: nat)
    requires IsNormalized(dir)
    ensures var s := Search(fs, Comps(dir));
      r == if s.Some? then Success(Render(s.value)) else Failure(NotInProject("/"))
    ensures probes <= |Comps(dir)|
    ensures r.Failure? ==> probes == |Comps(dir)|
    ensures r.Success? ==> probes == |Comps(dir)| - |Comps(r.value)| + 1
  {
    var name := dir;
    probes := 0;
    while Dirname(name) != name
      invariant IsNormalized(name)
      invariant probes == |Comps(dir)| - |Comps(name)|
      invariant Search(fs, Comps(dir)) == Search(fs, Comps(name))
      decreases |name|
    {
      DirnameNormalized(name);
      CompsRender(name);
      SearchStep(fs, Comps(name));
      probes := probes + 1;
      if Join(name, Marker) in fs.entries {
        RenderNormalized(Comps(name));
        return Success(name), probes;
      }
      name := Dirname(name);
    }
    DirnameNormalized(name);
    return Failure(NotInProject(name)), probes;
  }

  /** One step of the search: the directory itself, then its parent. */
  lemma SearchStep(fs: FileSystem, cs: seq<string>)
    requires cs != []
    ensures HasMarker(fs, Render(cs)) ==> Search(fs, cs) == Some(cs)
    ensures !HasMarker(fs, Render(cs)) ==> Search(fs, cs) == Search(fs, DropLast(cs))
  {
  }

  /** `Find` in terms of the search from the start directory. */
  lemma FindBySearch(env: Env, fs: FileSystem, filename: Option<string>)
    requires IsAbs(env.cwd)
    ensures var s := Search(fs, Comps(StartDir(env, fs, filename)));
      Find(env, fs, filename) == if s.Some? then Success(Render(s.value)) else Failure(NotInProject("/"))
  {
  }

  /** With no name given, the search is the one for the working directory
      given explicitly, whatever `PWD` says. */
  lemma FindNoneIsCwd(env: Env, pwd: string, fs: FileSystem)
    requires IsAbs(env.cwd)
    ensures Find(env, fs, None) == Find(Env(pwd, env.cwd), fs, Some(env.cwd))
  {
  }

  /** An absolute name ignores both `PWD` and the working directory: it is
      only normalised, and a normalised one is kept as it is. */
  lemma ResolveAbsolute(env: Env, f: string)
    requires IsAbs(env.cwd)
    requires IsAbs(f)
    ensures Resolve(env, Some(f)) == NormPath(f)
    ensures IsNormalized(f) ==> Resolve(env, Some(f)) == f
  {
    if IsNormalized(f) {
      NormPathIdempotent(f);
    }
  }

  /** A given relative name is resolved against the logical working
      directory `PWD`, never against the physical one: two environments that
      agree on an absolute `PWD` resolve every given name alike. (With no
      name the physical directory is substituted; see `FindNoneIsCwd`.) */
  lemma ResolveUsesPwd(pwd: string, cwd1: string, cwd2: string, f: string)
    requires IsAbs(pwd) && IsAbs(cwd1) && IsAbs(cwd2)
    ensures Resolve(Env(pwd, cwd1), Some(f)) == Resolve(Env(pwd, cwd2), Some(f))
  {
  }

  /** A one-piece relative name against a normalised `PWD`: `""` and `.` give
      `PWD`, `..` gives its parent (the root stays the root), any other name is
      appended as a component. */
  lemma ResolveRelative(env: Env, c: string)
    requires IsAbs(env.cwd)
    requires IsNormalized(env.pwd)
    requires Sep !in c
    ensures c == "" || c == "." ==> Resolve(env, Some(c)) == env.pwd
    ensures c == ".." ==> Resolve(env, Some(c)) == Render(DropLast(Comps(env.pwd)))
    ensures c == ".." && env.pwd == "/" ==> Resolve(env, Some(c)) == "/"
    ensures ValidComp(c) ==> Resolve(env, Some(c)) == Render(Comps(env.pwd) + [c])
  {
    CompsRender(env.pwd);
    NormPathJoin(Comps(env.pwd), c);
  }

  /** Any relative name against a normalised `PWD`: `normpath`'s step is
      applied to each of its pieces in turn, starting from `PWD`'s
      components, so `a/../b` gives `PWD/b` and `sub/` gives `PWD/sub`; a
      name made of valid components is appended to `PWD`. */
  lemma ResolveRelativePath(env: Env, f: string)
    requires IsAbs(env.cwd)
    requires IsNormalized(env.pwd)
    requires !IsAbs(f)
    ensures Resolve(env, Some(f)) == Render(NormComps(true, Comps(env.pwd), Split(f)))
    ensures Normal(Split(f)) ==> Resolve(env, Some(f)) == Render(Comps(env.pwd) + Split(f))
  {
    CompsRender(env.pwd);
    NormPathJoinAll(Comps(env.pwd), f);
  }

  /** At most one directory is the nearest project of a start directory. */
  lemma NearestProjectUnique(fs: FileSystem, start: seq<string>, p: seq<string>, q: seq<string>)
    requires IsNearestProject(fs, start, p)
    requires IsNearestProject(fs, start, q)
    ensures p == q
  {
    assert p == start[..|p|] && q == start[..|q|];
  }

  /** The marker's path under a normalised directory `d`, and `d` as the
      marker's `dirname`. */
  lemma MarkerPath(d: string)
    requires IsNormalized(d)
    ensures Join(d, Marker) == Render(Comps(d) + [Marker])
    ensures Dirname(Join(d, Marker)) == d
  {
    CompsRender(d);
    JoinRender(Comps(d), Marker);
    assert Normal(Comps(d) + [Marker]);
    DirnameRender(Comps(d) + [Marker]);
    assert DropLast(Comps(d) + [Marker]) == Comps(d);
  }

  /** A directory other than the root that has a marker is its own project. */
  lemma SelfIsProject(env: Env, fs: FileSystem, d: string)
    requires IsAbs(env.cwd)
    requires WellFormed(fs)
    requires IsNormalized(d) && d != "/"
    requires HasMarker(fs, d)
    ensures Find(env, fs, Some(d)) == Success(d)
  {
    ResolveAbsolute(env, d);
    MarkerPath(d);
    assert d !in fs.files;
    CompsRender(d);
    RenderNormalized(Comps(d));
    FindBySearch(env, fs, Some(d));
  }

  /** Looking up the project of a project gives the project back. */
  lemma FindIdempotent(env: Env, env2: Env, fs: FileSystem, filename: Option<string>)
    requires IsAbs(env.cwd) && IsAbs(env2.cwd)
    requires WellFormed(fs)
    requires Find(env, fs, filename).Success?
    ensures Find(env2, fs, Some(Find(env, fs, filename).value)) == Find(env, fs, filename)
  {
    var d := Find(env, fs, filename).value;
    CompsRender(d);
    SelfIsProject(env2, fs, d);
  }

  /** A regular file below a project directory `d`, with no marker on the
      directories between them, belongs to `d`. */
  lemma FileInsideProject(env: Env, fs: FileSystem, d: seq<string>, rest: seq<string>)
    requires IsAbs(env.cwd)
    requires Normal(d + rest) && d != [] && rest != []
    requires Render(d + rest) in fs.files
    requires HasMarker(fs, Render(d))
    requires NoMarkerBelow(fs, DropLast(d + rest), |d|)
    ensures Find(env, fs, Some(Render(d + rest))) == Success(Render(d))
  {
    var f := Render(d + rest);
    RenderNormalized(d + rest);
    ResolveAbsolute(env, f);
    var start := Comps(StartDir(env, fs, Some(f)));
    assert start == DropLast(d + rest);
    assert d <= start;
    assert start[..|d|] == d;
    var r := Find(env, fs, Some(f));
    assert r.Success?;
    NearestProjectUnique(fs, start, Comps(r.value), d);
    CompsRender(r.value);
  }

  /** A marker at the root is never found: when no normalised directory
      other than the root has a marker, every search fails, whether or not
      the root has one, and the error reports the root. */
  lemma RootMarkerIgnored(env: Env, fs: FileSystem, filename: Option<string>)
    requires IsAbs(env.cwd)
    requires forall d :: IsNormalized(d) && d != "/" ==> !HasMarker(fs, d)
    ensures Find(env, fs, filename) == Failure(NotInProject("/"))
  {
    var start := Comps(StartDir(env, fs, filename));
    CompsRender(StartDir(env, fs, filename));
    forall k | 0 < k <= |start|
      ensures !HasMarker(fs, Render(start[..k]))
    {
      var dir := start[..k];
      assert Normal(dir);
      RenderNormalized(dir);
      RenderLast(dir);
    }
  }

  /** The failure message names the root, whatever name was looked up. */
  lemma FailureMessage(env: Env, fs: FileSystem, filename: Option<string>)
    requires IsAbs(env.cwd)
    ensures Find(env, fs, filename).Failure? ==>
      Message(Find(env, fs, filename).error) == "Filename is not contained within a git project. Filename: /."
  {
  }
}
