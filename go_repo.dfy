/**
 * Repository discovery of the Go version (cmd/git-alot/main.go): turning a
 * walked `.git` entry into a `Repo` (a `.git` directory, or a `.git` file
 * holding a `gitdir:` line), and collecting and ordering the repositories
 * of a walk.
 */
module GoRepo {
  import opened Wrappers
  import Paths
  import Ordering

  /** A repository: its git directory and its work tree. */
  datatype Repo = Repo(dir: string, workTree: string)

  /** The file type the walk reports for a path (the type bits of os.FileMode). */
  datatype FileType = Regular | Directory | Symlink | OtherType

  /** `fmt.Errorf("not a git dir: %q", dotGit)` */
  datatype RepoError = NotAGitDir(path: string)

  /**
   * One path reported by the walk; `content` is what reading the file would
   * give, `None` when `ioutil.ReadFile` fails.
   */
  datatype WalkEntry = WalkEntry(path: string, typ: FileType, content: Option<string>)

  const GitDirPrefix: string := "gitdir: "

  /** The text of `s` up to, and not including, its first newline. */
  function FirstLine(s: string): (r: string)
    ensures r <= s
    ensures '\n' !in r
    ensures |r| == |s| || s[|r|] == '\n'
  {
    if s == [] || s[0] == '\n' then "" else [s[0]] + FirstLine(s[1..])
  }

  /**
   * The group captured by `^gitdir: (.*)` in `content`: present exactly when
   * `content` starts with "gitdir: ", and then the rest of that first line
   * (`.` does not match a newline).
   */
  function GitDirTarget(content: string): (r: Option<string>)
    ensures r.Some? <==> GitDirPrefix <= content
    ensures r.Some? ==> GitDirPrefix + r.value <= content && '\n' !in r.value
    ensures r.Some? ==> |GitDirPrefix + r.value| == |content| || content[|GitDirPrefix + r.value|] == '\n'
  {
    if GitDirPrefix <= content then
      var t := FirstLine(content[|GitDirPrefix|..]);
      assert content == GitDirPrefix + content[|GitDirPrefix|..];
      Some(t)
    else None
  }

  /**
   * `getGitDir` as written: the captured target is always joined under the
   * directory of the `.git` file, even when it is an absolute path.
   */
  function GitDirAsWritten(path: string, content: Option<string>): Option<string>
  {
    match content
    case None => None
    case Some(text) =>
      match GitDirTarget(text)
      case None => None
      case Some(target) => Some(Paths.Join(Paths.Dir(path), target))
  }

  /**
   * `getGitDir` with the evident intent: a relative target is resolved
   * against the directory of the `.git` file, an absolute one is taken as is.
   */
  function GitDir(path: string, content: Option<string>): (r: Option<string>)
    ensures r.Some? <==> content.Some? && GitDirTarget(content.value).Some?
    ensures r.Some? && !IsAbsolute(GitDirTarget(content.value).value) ==> r == GitDirAsWritten(path, content)
    ensures r.Some? && IsAbsolute(GitDirTarget(content.value).value) ==> r.value == GitDirTarget(content.value).value
  {
    match content
    case None => None
    case Some(text) =>
      match GitDirTarget(text)
      case None => None
      case Some(target) =>
        if IsAbsolute(target) then Some(target) else Some(Paths.Join(Paths.Dir(path), target))
  }

  predicate IsAbsolute(p: string)
  {
    p != [] && p[0] == '/'
  }

  /**
   * A `.git` file under a directory `d` that names an absolute git
   * directory `t` is resolved, as written, under `d`: to a path that is not
   * `t`.  The corrected resolution gives `t`.
   */
  lemma AbsoluteTargetMisresolved(d: string, t: string)
    requires d != []
    requires IsAbsolute(t) && '\n' !in t
    ensures GitDirAsWritten(Paths.Join(d, ".git"), Some(GitDirPrefix + t)) == Some(d + "/" + t)
    ensures d + "/" + t != t
    ensures GitDir(Paths.Join(d, ".git"), Some(GitDirPrefix + t)) == Some(t)
  {
    Paths.DirBaseOfJoin(d, ".git");
    assert (GitDirPrefix + t)[|GitDirPrefix|..] == t;
    FirstLineUpTo(t, |t|);
    assert t[..|t|] == t;
    assert |d + "/" + t| > |t|;
  }

  /** `FirstLine` stops at the first newline. */
  lemma {:induction false} FirstLineUpTo(s: string, n: nat)
    requires n <= |s|
    requires '\n' !in s[..n]
    requires n == |s| || s[n] == '\n'
    ensures FirstLine(s) == s[..n]
  {
    if n > 0 {
      assert s[1..][..n - 1] == s[1..n];
      FirstLineUpTo(s[1..], n - 1);
      assert s[..n] == [s[0]] + s[1..n];
    }
  }

  /**
   * `NewRepo`: a regular `.git` file is resolved through its `gitdir:` line
   * and fails when that cannot be read; any other `.git` entry is
   * itself the git directory.  The work tree is always the parent of `.git`.
   */
  function NewRepo(dotGit: string, typ: FileType, content: Option<string>): (r: Result<Repo, RepoError>)
    ensures typ != Regular ==> r.Ok? && r.value.dir == dotGit
    ensures typ == Regular ==> (r.Ok? <==> GitDir(dotGit, content).Some?)
    ensures typ == Regular && r.Ok? ==> r.value.dir == GitDir(dotGit, content).value
    ensures r.Ok? ==> r.value.workTree == Paths.Dir(dotGit)
    ensures r.Err? ==> r.error == NotAGitDir(dotGit)
  {
    if typ == Regular then
      match GitDir(dotGit, content)
      case None => Err(NotAGitDir(dotGit))
      case Some(dir) => Ok(Repo(dir, Paths.Dir(dotGit)))
    else
      Ok(Repo(dotGit, Paths.Dir(dotGit)))
  }

  /** For `<d>/.git`, the work tree of the repository is `d`, and a `.git` directory is the git directory. */
  lemma NewRepoWorkTree(d: string, typ: FileType, content: Option<string>)
    requires d != []
    ensures var r := NewRepo(Paths.Join(d, ".git"), typ, content);
      && (r.Ok? ==> r.value.workTree == d)
      && (typ == Directory ==> r == Ok(Repo(d + "/.git", d)))
  {
    Paths.DirBaseOfJoin(d, ".git");
    assert Paths.Join(d, ".git") == d + "/.git";
  }

  /** Only walked paths named `.git` are considered. */
  predicate IsDotGit(e: WalkEntry)
  {
    Paths.Base(e.path) == ".git"
  }

  /** What one walked path contributes: its repository, or nothing. */
  function Contribution(e: WalkEntry): seq<Repo>
  {
    if !IsDotGit(e) then []
    else match NewRepo(e.path, e.typ, e.content)
      case Ok(repo) => [repo]
      case Err(_) => []
  }

  /** The repositories a walk collects, in walk order, before sorting. */
  function Collected(walk: seq<WalkEntry>): seq<Repo>
  {
    if walk == [] then [] else Collected(walk[..|walk| - 1]) + Contribution(walk[|walk| - 1])
  }

  /** A path contributes `repo` exactly when it is named `.git` and `NewRepo` gives `repo`. */
  lemma ContributionExactly(e: WalkEntry, repo: Repo)
    ensures repo in Contribution(e) <==> IsDotGit(e) && NewRepo(e.path, e.typ, e.content) == Ok(repo)
  {
  }

  /** The collected repositories are those some walked path contributes. */
  lemma {:induction false} CollectedFrom(walk: seq<WalkEntry>, repo: Repo)
    ensures repo in Collected(walk) <==> exists i :: 0 <= i < |walk| && repo in Contribution(walk[i])
  {
    if walk != [] {
      var init := walk[..|walk| - 1];
      CollectedFrom(init, repo);
      if repo in Collected(init) {
        var i :| 0 <= i < |init| && repo in Contribution(init[i]);
        assert walk[i] == init[i];
      }
      if exists i :: 0 <= i < |walk| && repo in Contribution(walk[i]) {
        var i :| 0 <= i < |walk| && repo in Contribution(walk[i]);
        if i < |walk| - 1 {
          assert init[i] == walk[i];
        }
      }
    }
  }

  /**
   * A repository is collected exactly when some walked `.git` path yields it;
   * paths whose `NewRepo` fails contribute nothing.
   */
  lemma CollectedExactly(walk: seq<WalkEntry>, repo: Repo)
    ensures repo in Collected(walk) <==>
      exists i :: 0 <= i < |walk| && IsDotGit(walk[i]) && NewRepo(walk[i].path, walk[i].typ, walk[i].content) == Ok(repo)
  {
    CollectedFrom(walk, repo);
    forall i | 0 <= i < |walk|
      ensures repo in Contribution(walk[i]) <==>
        IsDotGit(walk[i]) && NewRepo(walk[i].path, walk[i].typ, walk[i].content) == Ok(repo)
    {
      ContributionExactly(walk[i], repo);
    }
  }

  function WorkTreeOf(r: Repo): string
  {
    r.workTree
  }

  /**
   * `listRepositories`: keeps the repositories of the walked `.git` paths
   * and sorts them in place by work tree.
   */
  method ListRepositories(walk: seq<WalkEntry>) returns (repos: seq<Repo>)
    ensures multiset(repos) == multiset(Collected(walk))
    ensures Ordering.SortedBy(repos, WorkTreeOf)
  {
    var found := Gather(walk);
    var a := new Repo[|found|](k requires 0 <= k < |found| => found[k]);
    assert a[..] == found;
    Ordering.SortByKey(a, WorkTreeOf);
    repos := a[..];
  }

  /** The walk callback of `listRepositories`, applied to every walked path in turn. */
  method Gather(walk: seq<WalkEntry>) returns (found: seq<Repo>)
    ensures found == Collected(walk)
  {
    found := [];
    var i := 0;
    while i < |walk|
      invariant 0 <= i <= |walk|
      invariant found == Collected(walk[..i])
    {
      var e := walk[i];
      assert walk[..i + 1][..i] == walk[..i];
      assert Collected(walk[..i + 1]) == found + Contribution(e);
      if IsDotGit(e) {
        var r := NewRepo(e.path, e.typ, e.content);
        if r.Ok? {
          found := found + [r.value];
        }
      }
      i := i + 1;
    }
    assert walk[..|walk|] == walk;
  }
}
