/**
 * The driver of the Python version (`main`, git-alot.py): the repository
 * list comes from a fresh scan (written to the cache) or from the cache
 * (filtered by the base directory); bare repositories are dropped; then
 * either every repository is fetched, or the dirty ones are reported in path
 * order and a one-line verdict and the exit status summarise the survey.
 */
module AlotMain {
  import opened Wrappers
  import Text
  import Seqs
  import Ordering
  import opened AlotOptions
  import opened AlotRepo

  /** `"\n".join(repos)`: what is written to the cache file. */
  function CacheText(repos: seq<string>): string
  {
    Text.Join("\n", repos)
  }

  /** `fd.read().split("\n")`: the paths read back from the cache file. */
  function ReadCache(text: string): (r: seq<string>)
    ensures |r| >= 1
  {
    Text.Split(text, '\n')
  }

  /**
   * Writing then reading the cache gives the same list, as long as it is not
   * empty and no path holds a newline.
   */
  lemma CacheRoundTrip(repos: seq<string>)
    requires |repos| >= 1
    requires forall k :: 0 <= k < |repos| ==> '\n' !in repos[k]
    ensures ReadCache(CacheText(repos)) == repos
  {
    Text.SplitJoin(repos, '\n');
  }

  /** Reading then rewriting the cache reproduces its text exactly. */
  lemma CacheTextRoundTrip(text: string)
    ensures CacheText(ReadCache(text)) == text
  {
    Text.JoinSplit(text, '\n');
  }

  /** `r.startswith(absbase)` */
  function StartsWith(absbase: string): string -> bool
  {
    r => absbase <= r
  }

  /** `[r for r in repos if r.startswith(absbase)]` */
  function UnderBase(repos: seq<string>, absbase: string): seq<string>
  {
    Seqs.Filter(repos, StartsWith(absbase))
  }

  /**
   * The reload filter keeps exactly the paths that have `absbase` as a plain
   * string prefix, so a sibling such as "/a/proj2" is kept for "/a/proj".
   */
  lemma UnderBaseMembers(repos: seq<string>, absbase: string, r: string)
    ensures r in UnderBase(repos, absbase) <==> r in repos && absbase <= r
  {
    Seqs.FilterMembers(repos, StartsWith(absbase), r);
  }

  /** The reload filter keeps the cached order. */
  lemma UnderBaseInOrder(a: seq<string>, b: seq<string>, absbase: string)
    ensures UnderBase(a + b, absbase) == UnderBase(a, absbase) + UnderBase(b, absbase)
  {
    Seqs.FilterAppend(a, b, StartsWith(absbase));
  }

  /** The repository paths of a run, and what the run writes to the cache file. */
  datatype Loaded = Loaded(repos: seq<string>, written: Option<string>)

  /**
   * `main`'s cache logic: with `--update-cache`, or without a cache file, the
   * scan of the base directory is used as found and written to the cache;
   * otherwise the cached paths under `absbase` are used and nothing is
   * written.
   */
  function LoadRepos(updateCache: bool, cache: Option<string>, scan: seq<string>, absbase: string): (r: Loaded)
    ensures updateCache || cache.None? ==> r.repos == scan && r.written == Some(CacheText(scan))
    ensures !updateCache && cache.Some? ==> r.written.None? && r.repos == UnderBase(ReadCache(cache.value), absbase)
  {
    if updateCache || cache.None? then Loaded(scan, Some(CacheText(scan)))
    else Loaded(UnderBase(ReadCache(cache.value), absbase), None)
  }

  /**
   * A later run without `--update-cache` sees the scanned paths of the run
   * that wrote the cache, restricted to its own base and in scan order.
   */
  lemma CacheReload(updateCache: bool, cache: Option<string>, scan: seq<string>, absbase: string, later: seq<string>, absbase': string)
    requires updateCache || cache.None?
    requires |scan| >= 1
    requires forall k :: 0 <= k < |scan| ==> '\n' !in scan[k]
    ensures LoadRepos(false, LoadRepos(updateCache, cache, scan, absbase).written, later, absbase').repos
      == UnderBase(scan, absbase')
  {
    CacheRoundTrip(scan);
  }

  predicate NotBare(s: Snapshot)
  {
    !s.bare
  }

  /** `[r for r in repos if not r.bare]` */
  function NonBare(repos: seq<Snapshot>): seq<Snapshot>
  {
    Seqs.Filter(repos, NotBare)
  }

  /** `r.has_dirt` under options `o`. */
  function DirtyUnder(o: Options): Snapshot -> bool
  {
    s => HasDirt(s, o)
  }

  /** `[r for r in repos if r.has_dirt]` */
  function Dirty(repos: seq<Snapshot>, o: Options): seq<Snapshot>
  {
    Seqs.Filter(repos, DirtyUnder(o))
  }

  /** The dirty list holds exactly the surveyed repositories that have dirt. */
  lemma DirtyMembers(repos: seq<Snapshot>, o: Options, s: Snapshot)
    ensures s in Dirty(repos, o) <==> s in repos && HasDirt(s, o)
    ensures |Dirty(repos, o)| <= |repos|
  {
    Seqs.FilterMembers(repos, DirtyUnder(o), s);
  }

  /** The verdict of a survey; the first threshold met decides. */
  datatype Bucket = AllClean | Nice | Good | Fair | Few | NoneClean

  /**
   * The if/elif chain of `main`, on the exact fractions `0.75`, `0.5` and
   * `0.25` of the repository count.
   */
  function Classify(nclean: nat, nrepos: nat): Bucket
  {
    if nclean == nrepos then AllClean
    else if nclean as real >= 0.75 * nrepos as real then Nice
    else if nclean as real >= 0.5 * nrepos as real then Good
    else if nclean as real >= 0.25 * nrepos as real then Fair
    else if nclean > 0 then Few
    else NoneClean
  }

  /** The thresholds as integer comparisons. */
  lemma ClassifyByCounts(nclean: nat, nrepos: nat)
    requires nclean <= nrepos
    ensures Classify(nclean, nrepos) == AllClean <==> nclean == nrepos
    ensures Classify(nclean, nrepos) == Nice <==> nclean < nrepos && 4 * nclean >= 3 * nrepos
    ensures Classify(nclean, nrepos) == Good <==> 4 * nclean < 3 * nrepos && 2 * nclean >= nrepos
    ensures Classify(nclean, nrepos) == Fair <==> 2 * nclean < nrepos && 4 * nclean >= nrepos
    ensures Classify(nclean, nrepos) == Few <==> 4 * nclean < nrepos && nclean > 0
    ensures Classify(nclean, nrepos) == NoneClean <==> nclean == 0 && nrepos > 0
  {
  }

  /** How bad a verdict is: 0 for all clean up to 5 for none clean. */
  function Rank(b: Bucket): nat
  {
    match b
    case AllClean => 0
    case Nice => 1
    case Good => 2
    case Fair => 3
    case Few => 4
    case NoneClean => 5
  }

  /** More clean repositories never give a worse verdict. */
  lemma ClassifyMonotone(c1: nat, c2: nat, nrepos: nat)
    requires c1 <= c2 <= nrepos
    ensures Rank(Classify(c2, nrepos)) <= Rank(Classify(c1, nrepos))
  {
    ClassifyByCounts(c1, nrepos);
    ClassifyByCounts(c2, nrepos);
  }

  /** The line printed for the verdict. */
  function Message(b: Bucket, nclean: nat, nrepos: nat): string
  {
    var c := Text.NatToString(nclean);
    var n := Text.NatToString(nrepos);
    match b
    case AllClean => "All of your " + n + " repositories are clean. Very Nice!"
    case Nice => ".. you have " + c + " clean repositories out of " + n + ". Nice!"
    case Good => ".. you have " + c + " clean repositories out of " + n + ". Good!"
    case Fair => ".. you have " + c + " clean repositories out of " + n + "."
    case Few => ".. only " + c + " of your " + n + " repositories are clean."
    case NoneClean => "You have no clean repositories :-("
  }

  /** `return 0` only after the all-clean message, `return 1` otherwise. */
  function ExitCode(b: Bucket): int
  {
    if b == AllClean then 0 else 1
  }

  /** The survey succeeds exactly when every repository is clean, including when there are none. */
  lemma ExitZeroIffAllClean(nclean: nat, nrepos: nat)
    ensures ExitCode(Classify(nclean, nrepos)) == 0 <==> nclean == nrepos
    ensures ExitCode(Classify(nclean, nrepos)) == 0 || ExitCode(Classify(nclean, nrepos)) == 1
  {
  }

  function WorkingDirOf(s: Snapshot): string
  {
    s.workingDir
  }

  /** What a run prints: the fetched repositories, or the reports and the verdict. */
  datatype Outcome =
    | Fetched(repos: seq<Snapshot>)
    | Surveyed(dirty: seq<Snapshot>, reports: seq<string>, nclean: nat, nrepos: nat, verdict: string)

  /**
   * What `main` does from the bare filter on, for options `o` and the opened
   * repositories `found`: with `--fetch` every non-bare repository is
   * fetched and the status is 0; otherwise the dirty non-bare repositories
   * are reported sorted by path (`__lt__`), each by its `__str__`, and the
   * verdict on the clean count decides the status.
   */
  ghost predicate SurveyOutcome(o: Options, found: seq<Snapshot>, show: (string, string) -> string, out: Outcome, status: int)
  {
    && (o.fetch ==> out == Fetched(NonBare(found)) && status == 0)
    && (!o.fetch ==> out.Surveyed?)
    && (out.Surveyed? ==>
      && multiset(out.dirty) == multiset(Dirty(NonBare(found), o))
      && |out.dirty| == |Dirty(NonBare(found), o)|
      && Ordering.SortedBy(out.dirty, WorkingDirOf)
      && |out.reports| == |out.dirty|
      && (forall k :: 0 <= k < |out.reports| ==> out.reports[k] == Text.Join("\n", ReportChunks(out.dirty[k], o, show)))
      && out.nrepos == |NonBare(found)|
      && out.nclean == out.nrepos - |out.dirty|
      && out.verdict == Message(Classify(out.nclean, out.nrepos), out.nclean, out.nrepos)
      && status == ExitCode(Classify(out.nclean, out.nrepos)))
  }

  /** `for repo in dirty_repos: print repo`: the report of each repository, in order. */
  method RenderAll(repos: seq<Snapshot>, o: Options, show: (string, string) -> string) returns (reports: seq<string>)
    ensures |reports| == |repos|
    ensures forall k :: 0 <= k < |repos| ==> reports[k] == Text.Join("\n", ReportChunks(repos[k], o, show))
  {
    reports := [];
    for k := 0 to |repos|
      invariant |reports| == k
      invariant forall j :: 0 <= j < k ==> reports[j] == Text.Join("\n", ReportChunks(repos[j], o, show))
    {
      var text := Render(repos[k], o, show);
      reports := reports + [text];
    }
  }

  /** `main` from the bare filter on. */
  method Survey(o: Options, found: seq<Snapshot>, show: (string, string) -> string) returns (out: Outcome, status: int)
    ensures SurveyOutcome(o, found, show, out, status)
  {
    var repos := NonBare(found);
    if o.fetch {
      out := Fetched(repos);
      status := 0;
      return;
    }
    var dirty := Dirty(repos, o);
    var a := new Snapshot[|dirty|](k requires 0 <= k < |dirty| => dirty[k]);
    assert a[..] == dirty;
    Ordering.SortByKey(a, WorkingDirOf);
    var sorted := a[..];
    assert |sorted| == |multiset(sorted)| == |multiset(dirty)| == |dirty|;
    var reports := RenderAll(sorted, o, show);
    var nrepos := |repos|;
    var nclean := nrepos - |dirty|;
    var verdict := Classify(nclean, nrepos);
    out := Surveyed(sorted, reports, nclean, nrepos, Message(verdict, nclean, nrepos));
    status := ExitCode(verdict);
  }

  /** `map(git.Repo, repos)` */
  function OpenAll(paths: seq<string>, open: string -> Snapshot): (r: seq<Snapshot>)
    ensures |r| == |paths|
    ensures forall k :: 0 <= k < |r| ==> r[k] == open(paths[k])
  {
    seq(|paths|, k requires 0 <= k < |paths| => open(paths[k]))
  }

  /** The repositories a run surveys: the loaded paths, each opened with `open`. */
  function Found(o: Options, base: string, cache: Option<string>, find: string -> seq<string>,
                 abspath: string -> string, open: string -> Snapshot): seq<Snapshot>
  {
    OpenAll(LoadRepos(o.updateCache, cache, find(base), abspath(base)).repos, open)
  }

  /**
   * `main`: parse the arguments, load the repository paths (scanning with
   * `find` or reading the cache), open each path as a repository with
   * `open`, and survey them.
   */
  method Run(parsed: Options, args: seq<string>, home: string, cache: Option<string>,
             find: string -> seq<string>, abspath: string -> string,
             open: string -> Snapshot, show: (string, string) -> string)
    returns (status: int, written: Option<string>, out: Option<Outcome>)
    ensures |args| > 1 <==> out.None?
    ensures |args| > 1 ==> status == UsageExitStatus && written.None?
    ensures status == 0 || status == 1
    ensures SelectBase(args, home).Ok? ==>
      written == LoadRepos(Resolved(parsed).updateCache, cache, find(SelectBase(args, home).value),
                           abspath(SelectBase(args, home).value)).written
    ensures SelectBase(args, home).Ok? ==>
      && out.Some?
      && SurveyOutcome(Resolved(parsed), Found(Resolved(parsed), SelectBase(args, home).value, cache, find, abspath, open),
                       show, out.value, status)
    ensures status == 0 <==>
      && SelectBase(args, home).Ok?
      && (|| Resolved(parsed).fetch
          || Dirty(NonBare(Found(Resolved(parsed), SelectBase(args, home).value, cache, find, abspath, open)), Resolved(parsed)) == [])
  {
    var parsedArgs := ParseArgs(parsed, args, home);
    if parsedArgs.Err? {
      status, written, out := UsageExitStatus, None, None;
      return;
    }
    var (o, base) := parsedArgs.value;
    var loaded := LoadRepos(o.updateCache, cache, find(base), abspath(base));
    written := loaded.written;
    var paths := loaded.repos;
    var found := OpenAll(paths, open);
    var surveyed;
    surveyed, status := Survey(o, found, show);
    out := Some(surveyed);
    if !o.fetch {
      ExitZeroIffAllClean(surveyed.nclean, surveyed.nrepos);
    }
  }
}
