/**
 * One repository of the Python version (`AlotRepo`, git-alot.py): whether it
 * has dirt of an enabled kind, and the report printed for it.  The answers
 * GitPython gives about the repository are gathered in a `Snapshot`; the
 * output of `git stash show --stat <ref>` in the repository at `dir` is
 * `show(dir, ref)`.
 */
module AlotRepo {
  import Text
  import opened AlotOptions

  /** `repo.refs["refs/stash"].log()`: the stash messages, or the GitPython `ValueError`. */
  datatype StashLog = Entries(messages: seq<string>) | Unreadable

  /**
   * What the tool asks GitPython about a repository: `working_dir`, `bare`,
   * `is_dirty(index=False)`, `is_dirty(working_tree=False)`,
   * `untracked_files`, the names of `refs`, the stash log, and the outputs
   * of `git diff --stat` and `git diff --stat --cached`.
   */
  datatype Snapshot = Snapshot(
    workingDir: string,
    bare: bool,
    worktreeDirty: bool,
    indexDirty: bool,
    untracked: seq<string>,
    refs: seq<string>,
    stashLog: StashLog,
    worktreeStat: string,
    indexStat: string)

  /**
   * `indent(t, i)`: every line of `t` prefixed with `i` spaces, i.e.
   * `i + ("\n" + i).join(t.split("\n"))` with `i` the spaces.
   */
  function Indent(t: string, i: nat): string
  {
    Text.Spaces(i) + Text.Join("\n" + Text.Spaces(i), Text.Split(t, '\n'))
  }

  /** The lines of `Indent(t, i)` are the lines of `t`, each behind `i` spaces. */
  lemma IndentLines(t: string, i: nat)
    ensures Text.Split(Indent(t, i), '\n') == Text.PrefixEach(Text.Spaces(i), Text.Split(t, '\n'))
  {
    var sp := Text.Spaces(i);
    var parts := Text.Split(t, '\n');
    Text.SplitPieces(t, '\n');
    Text.JoinPrefixed(sp, "\n", parts);
    var lines := Text.PrefixEach(sp, parts);
    forall k | 0 <= k < |lines|
      ensures '\n' !in lines[k]
    {
      assert lines[k] == sp + parts[k];
      forall m | 0 <= m < |lines[k]|
        ensures lines[k][m] != '\n'
      {
        if m >= |sp| {
          assert lines[k][m] == parts[k][m - |sp|];
        }
      }
    }
    Text.SplitJoin(lines, '\n');
  }

  /** Indenting adds no line and removes none: the newline count is unchanged. */
  lemma IndentNewlines(t: string, i: nat)
    ensures multiset(Indent(t, i))['\n'] == multiset(t)['\n']
  {
    IndentLines(t, i);
    Text.SplitPieces(t, '\n');
    Text.SplitPieces(Indent(t, i), '\n');
  }

  /** `indent("", i)` is just the `i` spaces. */
  lemma IndentEmpty(i: nat)
    ensures Indent("", i) == Text.Spaces(i)
  {
    assert Text.Split("", '\n') == [""];
    assert Text.Spaces(i) + "" == Text.Spaces(i);
  }

  /** A single line is indented by putting the spaces in front of it. */
  lemma IndentSingleLine(t: string, i: nat)
    requires '\n' !in t
    ensures Indent(t, i) == Text.Spaces(i) + t
  {
    Text.SplitWithout(t, '\n');
  }

  /** `indent(t, 0)` is `t`. */
  lemma IndentZero(t: string)
    ensures Indent(t, 0) == t
  {
    Text.JoinSplit(t, '\n');
    assert "\n" + Text.Spaces(0) == "\n";
  }

  /** `has_stash`: the repository has a `refs/stash` reference. */
  predicate HasStash(s: Snapshot)
  {
    "refs/stash" in s.refs
  }

  /**
   * `has_dirt`: the first enabled kind of dirt found decides; the
   * `branches` switch is never consulted.
   */
  function HasDirt(s: Snapshot, o: Options): (r: bool)
    ensures r <==>
      || (o.Enabled(Worktree) && s.worktreeDirty)
      || (o.Enabled(Index) && s.indexDirty)
      || (o.Enabled(Untracked) && s.untracked != [])
      || (o.Enabled(Stashes) && HasStash(s))
  {
    if o.Enabled(Worktree) && s.worktreeDirty then true
    else if o.Enabled(Index) && s.indexDirty then true
    else if o.Enabled(Untracked) && s.untracked != [] then true
    else if o.Enabled(Stashes) && HasStash(s) then true
    else false
  }

  /** The `branches` switch changes neither the verdict nor the report. */
  lemma BranchesIgnored(s: Snapshot, o: Options, v: Setting, show: (string, string) -> string)
    ensures HasDirt(s, o.With(Branches, v)) == HasDirt(s, o)
    ensures ReportChunks(s, o.With(Branches, v), show) == ReportChunks(s, o, show)
  {
    var o' := o.With(Branches, v);
    assert o'.Enabled(Worktree) == o.Enabled(Worktree) && o'.Enabled(Index) == o.Enabled(Index);
    assert o'.Enabled(Untracked) == o.Enabled(Untracked) && o'.Enabled(Stashes) == o.Enabled(Stashes);
  }

  /** With every check off, no repository is dirty and the report is its path alone. */
  lemma AllOffClean(s: Snapshot, o: Options, show: (string, string) -> string)
    requires forall c :: !o.Enabled(c)
    ensures !HasDirt(s, o)
    ensures ReportChunks(s, o, show) == [s.workingDir]
  {
    assert !o.Enabled(Worktree) && !o.Enabled(Index) && !o.Enabled(Untracked) && !o.Enabled(Stashes);
  }

  /** Enabling more checks can only find more dirt. */
  lemma DirtMonotone(s: Snapshot, o: Options, o': Options)
    requires forall c :: o.Enabled(c) ==> o'.Enabled(c)
    requires HasDirt(s, o)
    ensures HasDirt(s, o')
  {
    assert o.Enabled(Worktree) ==> o'.Enabled(Worktree);
    assert o.Enabled(Index) ==> o'.Enabled(Index);
    assert o.Enabled(Untracked) ==> o'.Enabled(Untracked);
    assert o.Enabled(Stashes) ==> o'.Enabled(Stashes);
  }

  const WorktreeHeading: string := "  == Dirty Working Tree =="
  const IndexHeading: string := "  == Dirty Index (stuff to commit!) =="
  const StashProblem: string := "!! Problem reading stash !!"

  /** `indent("!! Problem reading stash !!")`, as `StashNoticeIndented` shows. */
  const StashNotice: string := "    " + StashProblem

  /** `MAX`: how many untracked names are listed. */
  const MaxUntracked: nat := 10

  function UntrackedHeading(n: nat): string
  {
    "  == " + Text.NatToString(n) + " Untracked file(s) =="
  }

  function MoreLine(n: nat): string
  {
    "... and " + Text.NatToString(n) + " more"
  }

  function StashHeading(n: nat): string
  {
    "  == " + Text.NatToString(n) + " item(s) in stash =="
  }

  /** `"stash@{{{0}}}".format(i)` */
  function StashRef(i: nat): string
  {
    "stash@{" + Text.NatToString(i) + "}"
  }

  function Min(a: nat, b: nat): nat
  {
    if a <= b then a else b
  }

  /** The untracked section: heading with the full count, the first names, and the rest counted. */
  function UntrackedChunks(u: seq<string>): seq<string>
  {
    if u == [] then []
    else
      [UntrackedHeading(|u|), Indent(Text.Join("\n", u[..Min(|u|, MaxUntracked)]), 4)]
      + (if |u| > MaxUntracked then [Indent(MoreLine(|u| - MaxUntracked), 4)] else [])
  }

  /**
   * The untracked section reports the full count, lists exactly the first
   * (at most ten) names one per line behind four spaces, and ends with a
   * "... and N more" line, N being the names not listed, exactly when there
   * are more than ten.
   */
  lemma UntrackedListing(u: seq<string>)
    requires u != []
    requires forall k :: 0 <= k < |u| ==> '\n' !in u[k]
    ensures var r := UntrackedChunks(u);
      && r[0] == UntrackedHeading(|u|)
      && Text.Split(r[1], '\n') == Text.PrefixEach(Text.Spaces(4), u[..Min(|u|, MaxUntracked)])
      && (|r| == 3 <==> |u| > MaxUntracked)
      && |r| >= 2 && |r| <= 3
      && (|u| > MaxUntracked ==> r[2] == Indent(MoreLine(|u| - Min(|u|, MaxUntracked)), 4))
  {
    var shown := u[..Min(|u|, MaxUntracked)];
    assert forall k :: 0 <= k < |shown| ==> shown[k] == u[k];
    Text.SplitJoin(shown, '\n');
    IndentLines(Text.Join("\n", shown), 4);
  }

  /** The stash entries: message behind four spaces, then the `--stat` of `stash@{i}` behind seven. */
  function StashItems(dir: string, messages: seq<string>, show: (string, string) -> string): (r: seq<string>)
    ensures |r| == 2 * |messages|
  {
    if messages == [] then []
    else
      var n := |messages| - 1;
      StashItems(dir, messages[..n], show) + [Indent(messages[n], 4), Indent(show(dir, StashRef(n)), 7)]
  }

  /** Entry `i` of the stash is shown with its own message and the ref `stash@{i}`. */
  lemma {:induction false} StashItemAt(dir: string, messages: seq<string>, show: (string, string) -> string, i: nat)
    requires i < |messages|
    ensures StashItems(dir, messages, show)[2 * i] == Indent(messages[i], 4)
    ensures StashItems(dir, messages, show)[2 * i + 1] == Indent(show(dir, StashRef(i)), 7)
  {
    var n := |messages| - 1;
    if i < n {
      StashItemAt(dir, messages[..n], show, i);
    }
  }

  /** Appending entry `i` to the first `i` entries. */
  lemma StashItemsSnoc(dir: string, messages: seq<string>, show: (string, string) -> string, i: nat)
    requires i < |messages|
    ensures StashItems(dir, messages[..i + 1], show) ==
      StashItems(dir, messages[..i], show) + [Indent(messages[i], 4), Indent(show(dir, StashRef(i)), 7)]
  {
    assert messages[..i + 1][..i] == messages[..i];
  }

  /** The stash section; an unreadable log gives the notice and an empty stash. */
  function StashChunks(dir: string, log: StashLog, show: (string, string) -> string): seq<string>
  {
    var notice := if log.Unreadable? then [StashNotice] else [];
    var messages := if log.Unreadable? then [] else log.messages;
    notice + [StashHeading(|messages|)] + StashItems(dir, messages, show)
  }

  /** The notice is `indent("!! Problem reading stash !!")`. */
  lemma StashNoticeIndented()
    ensures Indent(StashProblem, 4) == StashNotice
  {
    assert '\n' !in StashProblem;
    IndentFourSpaces(StashProblem);
  }

  lemma IndentFourSpaces(t: string)
    requires '\n' !in t
    ensures Indent(t, 4) == "    " + t
  {
    IndentSingleLine(t, 4);
    assert Text.Spaces(4) == "    ";
  }

  /** A stash log that cannot be read shows the notice and "0 item(s) in stash". */
  lemma UnreadableStash(dir: string, show: (string, string) -> string)
    ensures StashChunks(dir, Unreadable, show) == [StashNotice, StashHeading(0)]
  {
  }

  /**
   * A readable stash log of `n` entries gives its count and then, for each
   * entry `i`, its message and the stat of `stash@{i}`; an empty log gives
   * the heading alone.
   */
  lemma ReadableStash(dir: string, messages: seq<string>, show: (string, string) -> string)
    ensures var r := StashChunks(dir, Entries(messages), show);
      && |r| == 1 + 2 * |messages|
      && r[0] == StashHeading(|messages|)
      && (forall i :: 0 <= i < |messages| ==>
            r[1 + 2 * i] == Indent(messages[i], 4) && r[2 + 2 * i] == Indent(show(dir, StashRef(i)), 7))
  {
    forall i | 0 <= i < |messages|
      ensures StashItems(dir, messages, show)[2 * i] == Indent(messages[i], 4)
      ensures StashItems(dir, messages, show)[2 * i + 1] == Indent(show(dir, StashRef(i)), 7)
    {
      StashItemAt(dir, messages, show, i);
    }
  }

  function WorktreeSection(s: Snapshot, o: Options): seq<string>
  {
    if o.Enabled(Worktree) && s.worktreeDirty then [WorktreeHeading, Indent(s.worktreeStat, 3)] else []
  }

  function IndexSection(s: Snapshot, o: Options): seq<string>
  {
    if o.Enabled(Index) && s.indexDirty then [IndexHeading, Indent(s.indexStat, 3)] else []
  }

  function UntrackedSection(s: Snapshot, o: Options): seq<string>
  {
    if o.Enabled(Untracked) then UntrackedChunks(s.untracked) else []
  }

  function StashSection(s: Snapshot, o: Options, show: (string, string) -> string): seq<string>
  {
    if o.Enabled(Stashes) && HasStash(s) then StashChunks(s.workingDir, s.stashLog, show) else []
  }

  /**
   * The pieces `__str__` joins with newlines: the working directory, then the
   * worktree, index, untracked and stash sections, in that order.
   */
  function ReportChunks(s: Snapshot, o: Options, show: (string, string) -> string): seq<string>
  {
    [s.workingDir] + WorktreeSection(s, o) + IndexSection(s, o) + UntrackedSection(s, o) + StashSection(s, o, show)
  }

  /**
   * The report starts with the working directory, and it has anything after
   * that exactly when the repository has dirt of an enabled kind.
   */
  lemma ReportShowsDirt(s: Snapshot, o: Options, show: (string, string) -> string)
    ensures ReportChunks(s, o, show)[0] == s.workingDir
    ensures s.workingDir <= Text.Join("\n", ReportChunks(s, o, show))
    ensures |ReportChunks(s, o, show)| > 1 <==> HasDirt(s, o)
  {
    Text.JoinStartsWithFirst("\n", ReportChunks(s, o, show));
    if o.Enabled(Stashes) && HasStash(s) {
      assert |StashChunks(s.workingDir, s.stashLog, show)| >= 1;
    }
  }

  /**
   * The untracked part of `__str__`: the heading, the first names, and the
   * count of the others.
   */
  method AppendUntracked(result: seq<string>, untracked: seq<string>) returns (r: seq<string>)
    ensures r == result + UntrackedChunks(untracked)
  {
    r := result;
    if untracked != [] {
      r := r + [UntrackedHeading(|untracked|)];
      r := r + [Indent(Text.Join("\n", untracked[..Min(|untracked|, MaxUntracked)]), 4)];
      if |untracked| > MaxUntracked {
        r := r + [Indent(MoreLine(|untracked| - MaxUntracked), 4)];
      }
    } else {
      assert r == result + [];
    }
  }

  /**
   * The stash part of `__str__`: the notice when the log cannot be read, the
   * item count, then each entry's message and stat, appended one by one.
   */
  method AppendStash(result: seq<string>, dir: string, log: StashLog, show: (string, string) -> string) returns (r: seq<string>)
    ensures r == result + StashChunks(dir, log, show)
  {
    r := result;
    var messages: seq<string>;
    if log.Unreadable? {
      r := r + [StashNotice];
      messages := [];
    } else {
      messages := log.messages;
    }
    r := r + [StashHeading(|messages|)];
    ghost var before := r;
    for i := 0 to |messages|
      invariant r == before + StashItems(dir, messages[..i], show)
    {
      StashItemsSnoc(dir, messages, show, i);
      r := r + [Indent(messages[i], 4)];
      var ref := StashRef(i);
      r := r + [Indent(show(dir, ref), 7)];
    }
    assert messages[..|messages|] == messages;
    ghost var notice := if log.Unreadable? then [StashNotice] else [];
    assert before == result + notice + [StashHeading(|messages|)];
    Regroup(result, notice, [StashHeading(|messages|)], StashItems(dir, messages, show));
  }

  lemma Regroup(a: seq<string>, b: seq<string>, c: seq<string>, d: seq<string>)
    ensures a + b + c + d == a + (b + c + d)
  {
  }

  /**
   * `__str__`: the report text, built by appending chunk after chunk and
   * then the stash entries one by one.
   */
  method Render(s: Snapshot, o: Options, show: (string, string) -> string) returns (text: string)
    ensures text == Text.Join("\n", ReportChunks(s, o, show))
  {
    var result := [s.workingDir];
    if o.Enabled(Worktree) && s.worktreeDirty {
      result := result + [WorktreeHeading];
      result := result + [Indent(s.worktreeStat, 3)];
    }
    assert result == [s.workingDir] + WorktreeSection(s, o);
    ghost var sofar := result;
    if o.Enabled(Index) && s.indexDirty {
      result := result + [IndexHeading];
      result := result + [Indent(s.indexStat, 3)];
    }
    assert result == sofar + IndexSection(s, o);
    sofar := result;
    if o.Enabled(Untracked) {
      result := AppendUntracked(result, s.untracked);
    } else {
      assert result == sofar + [];
    }
    assert result == sofar + UntrackedSection(s, o);
    sofar := result;
    if o.Enabled(Stashes) && HasStash(s) {
      result := AppendStash(result, s.workingDir, s.stashLog, show);
    } else {
      assert result == sofar + [];
    }
    text := Text.Join("\n", result);
  }
}
