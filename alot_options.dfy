/**
 * Command-line handling of the Python version (`parse_args`, git-alot.py):
 * five tri-state check switches (`--X` sets one, `--no-X` clears it, and an
 * untouched one stays `None`), the rule that turns on every untouched switch
 * when none was turned on explicitly, and the choice of the base directory
 * from the positional arguments.
 */
module AlotOptions {
  import opened Wrappers

  /** The kinds of dirt the tool can look for. */
  datatype Check = Worktree | Index | Untracked | Stashes | Branches

  const AllChecks: seq<Check> := [Worktree, Index, Untracked, Stashes, Branches]

  /** An optparse destination after parsing: never mentioned, `--X`, or `--no-X`. */
  datatype Setting = Unset | On | Off

  /** The parsed options; `fetch` and `updateCache` are plain `store_true` flags. */
  datatype Options = Options(
    worktree: Setting, index: Setting, untracked: Setting, stashes: Setting, branches: Setting,
    fetch: bool, updateCache: bool)
  {
    /** `getattr(options, c)` */
    function Get(c: Check): Setting
    {
      match c
      case Worktree => worktree
      case Index => index
      case Untracked => untracked
      case Stashes => stashes
      case Branches => branches
    }

    /** `setattr(options, c, v)`: only that switch changes. */
    function With(c: Check, v: Setting): (o: Options)
      ensures o.Get(c) == v
      ensures forall d :: d != c ==> o.Get(d) == Get(d)
      ensures o.fetch == fetch && o.updateCache == updateCache
    {
      match c
      case Worktree => this.(worktree := v)
      case Index => this.(index := v)
      case Untracked => this.(untracked := v)
      case Stashes => this.(stashes := v)
      case Branches => this.(branches := v)
    }

    /** Python truthiness of the switch: `None` and `False` are both off. */
    predicate Enabled(c: Check)
    {
      Get(c) == On
    }
  }

  /** Two option records that agree on every switch and flag are the same. */
  lemma OptionsExt(a: Options, b: Options)
    requires forall c :: a.Get(c) == b.Get(c)
    requires a.fetch == b.fetch && a.updateCache == b.updateCache
    ensures a == b
  {
    assert a.Get(Worktree) == b.Get(Worktree) && a.Get(Index) == b.Get(Index);
    assert a.Get(Untracked) == b.Get(Untracked) && a.Get(Stashes) == b.Get(Stashes);
    assert a.Get(Branches) == b.Get(Branches);
  }

  /** `any(getattr(options, s) for s in switches)`: some switch was turned on. */
  predicate Specific(o: Options)
  {
    exists c :: o.Get(c) == On
  }

  /** What resolution does to one switch. */
  function ResolvedSetting(specific: bool, s: Setting): Setting
  {
    if !specific && s == Unset then On else s
  }

  /** The options after resolution, switch by switch. */
  function Resolved(p: Options): (o: Options)
    ensures forall c :: o.Get(c) == ResolvedSetting(Specific(p), p.Get(c))
    ensures o.fetch == p.fetch && o.updateCache == p.updateCache
  {
    var sp := Specific(p);
    Options(
      ResolvedSetting(sp, p.worktree), ResolvedSetting(sp, p.index), ResolvedSetting(sp, p.untracked),
      ResolvedSetting(sp, p.stashes), ResolvedSetting(sp, p.branches),
      p.fetch, p.updateCache)
  }

  /**
   * The resolution loop of `parse_args`: when no switch was turned on, each
   * switch still `None` is set to `True`.
   */
  method ResolveSwitches(parsed: Options) returns (o: Options)
    ensures o == Resolved(parsed)
  {
    o := parsed;
    if !Specific(parsed) {
      for i := 0 to |AllChecks|
        invariant forall j :: 0 <= j < i ==> o.Get(AllChecks[j]) == ResolvedSetting(false, parsed.Get(AllChecks[j]))
        invariant forall j :: i <= j < |AllChecks| ==> o.Get(AllChecks[j]) == parsed.Get(AllChecks[j])
        invariant o.fetch == parsed.fetch && o.updateCache == parsed.updateCache
      {
        var s := AllChecks[i];
        if o.Get(s) == Unset {
          o := o.With(s, On);
        }
      }
      forall c
        ensures o.Get(c) == Resolved(parsed).Get(c)
      {
        assert c == AllChecks[0] || c == AllChecks[1] || c == AllChecks[2] || c == AllChecks[3] || c == AllChecks[4];
      }
      OptionsExt(o, Resolved(parsed));
    } else {
      forall c
        ensures o.Get(c) == Resolved(parsed).Get(c)
      {
      }
      OptionsExt(o, Resolved(parsed));
    }
  }

  /**
   * With no switch turned on, resolution enables every check except those
   * explicitly turned off with `--no-X`.
   */
  lemma DefaultsEnableAllButCleared(p: Options, c: Check)
    requires !Specific(p)
    ensures Resolved(p).Enabled(c) <==> p.Get(c) != Off
    ensures p.Get(c) == Off ==> Resolved(p).Get(c) == Off
  {
  }

  /** When some switch was turned on, only the switches turned on are enabled. */
  lemma SpecificKeepsSelection(p: Options, c: Check)
    requires Specific(p)
    ensures Resolved(p).Get(c) == p.Get(c)
    ensures Resolved(p).Enabled(c) <==> p.Get(c) == On
  {
  }

  /** Resolving resolved options changes nothing. */
  lemma ResolvedIdempotent(p: Options)
    ensures Resolved(Resolved(p)) == Resolved(p)
  {
    var r := Resolved(p);
    if !Specific(p) && !Specific(r) {
      // Without `--X`, the untouched switches become `On`, so a resolved record
      // has a switch on unless every switch was cleared, and then nothing changes.
      forall c
        ensures r.Get(c) == Off
      {
      }
    }
    OptionsExt(Resolved(r), r);
  }

  /** Unless every switch was cleared, some check is enabled after resolution. */
  lemma SomeCheckEnabled(p: Options)
    requires exists c :: p.Get(c) != Off
    ensures exists c :: Resolved(p).Enabled(c)
  {
    var c :| p.Get(c) != Off;
    if !Specific(p) {
      assert Resolved(p).Enabled(c);
    } else {
      var d :| p.Get(d) == On;
      assert Resolved(p).Enabled(d);
    }
  }

  /** `parser.print_usage` followed by `SystemExit(1)`: the extra arguments. */
  datatype ArgError = UnusedArguments(extra: seq<string>)

  /** The exit status of an argument error. */
  const UsageExitStatus: int := 1

  /**
   * The base directory: `$HOME` with no positional argument, the argument when
   * there is one, and an error naming the surplus when there are more.
   */
  function SelectBase(args: seq<string>, home: string): (r: Result<string, ArgError>)
    ensures r.Ok? <==> |args| <= 1
    ensures args == [] ==> r == Ok(home)
    ensures |args| == 1 ==> r.Ok? && r.value == args[0]
    ensures r.Err? ==> [args[0]] + r.error.extra == args
  {
    if args == [] then Ok(home)
    else if |args| == 1 then Ok(args[0])
    else Err(UnusedArguments(args[1..]))
  }

  /** `parse_args` after optparse: resolved options and base, or the usage error. */
  method ParseArgs(parsed: Options, args: seq<string>, home: string) returns (r: Result<(Options, string), ArgError>)
    ensures r.Ok? <==> |args| <= 1
    ensures r.Ok? ==> r.value.0 == Resolved(parsed) && SelectBase(args, home) == Ok(r.value.1)
    ensures r.Err? ==> SelectBase(args, home) == Err(r.error)
  {
    var options := ResolveSwitches(parsed);
    var base := SelectBase(args, home);
    match base
    case Ok(b) => r := Ok((options, b));
    case Err(e) => r := Err(e);
  }
}
