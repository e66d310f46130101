# git-alot, modelled in Dafny

git-alot surveys many git repositories at once. It finds every repository
under a base directory and reports the dirty ones: a dirty working tree, a
dirty index, untracked files, or stashes. It ends with a one-line verdict on
how many repositories are clean.

This project models the decision and formatting logic of two versions of the
tool:

- **The Python script** (`git-alot.py`):
  - `AlotOptions` (alot_options.dfy): the tri-state check switches, their
    resolution, and the choice of the base directory.
  - `AlotRepo` (alot_repo.dfy): `indent`, `has_stash`, `has_dirt`, and the
    report built by `__str__`. GitPython's answers are an abstract `Snapshot`.
  - `AlotMain` (alot_main.dfy): the path cache (join, split and prefix
    filter), the bare and dirty filters, the sort by path, the verdict
    buckets and the exit status.
- **The Go rewrite** (`cmd/git-alot/main.go`):
  - `GoRepo` (go_repo.dfy): `.git` resolution, which is either a directory
    or a file holding a `gitdir:` line (`NewRepo`, `getGitDir`). It also covers
    collecting and sorting the repositories of a walk (`listRepositories`,
    `ByWorkTree`).
  - `GoStatus` (go_status.dfy): `strings.Fields`, and the loop of
    `NewGitStatus` that groups `git status --porcelain` lines by status code.

Shared support modules:

- `Text`: Python's `str.split`, `str.join`, `" " * n` and decimal formatting.
- `Ordering`: lexicographic string order, which is both Python's `str <` and
  Go's string `<`. It also holds an in-place insertion sort that stands for
  both `list.sort()` (a timsort) and `sort.Sort` (Go's own algorithm). Only
  their result, a sorted permutation, is modelled.
- `Paths`: slash-separated `filepath.Join`, `Dir` and `Base`.
- `Seqs`: the filtering list comprehension.
- `Wrappers`: `Option` and `Result`.

Imperative parts of the source stay imperative. These are methods with loops,
each proved against a function:

- the `setattr` loop of `parse_args`;
- the appends of `__str__`;
- the print loop over the dirty repositories in `main` (`RenderAll`);
- the walk callback of `listRepositories` (`Gather`);
- the map updates of `NewGitStatus`.

The in-place sorts are a method over an `array`.

The model follows the code as written. Its one deliberate departure is the
corrected `gitdir:` resolution (see Findings). In particular:

- The code writes the cache after every fresh scan, including a scan of a
  restricted base directory. A fresh scan is not filtered; only the list
  read back from the cache is filtered by prefix.
- `has_dirt` looks only at the four enabled checks; a repository without
  commits gets no special treatment. A cache file is reused however old it
  is, until `--update-cache` is given or the file is missing.

## Model

| member | source | states |
|---|---|---|
| Text.SplitPieces | git-alot.py:42 | `t.split("\n")` has one more piece than `t` has newlines, and no piece contains a newline |
| Text.SplitJoin | git-alot.py:171-174 | splitting a non-empty, newline-free list joined with the separator gives the list back |
| Text.JoinSplit | git-alot.py:42 | joining the pieces of `s.split(c)` with `c` gives `s` back |
| Text.JoinPrefixed | git-alot.py:42 | `i + ("\n"+i).join(parts)` equals `"\n".join` of the parts, each prefixed with `i` |
| Text.JoinStartsWithFirst | git-alot.py:108 | a joined list starts with its first piece |
| Text.NatToString | git-alot.py:86 | `"{0}".format(n)` for a count is non-empty, all decimal digits, and has no leading zero |
| Text.DecimalRoundTrip | git-alot.py:86 | the decimal text of a count denotes that count |
| AlotOptions.Options.With | git-alot.py:140 | `setattr` gives the switch the new value and changes no other switch or flag |
| AlotOptions.Resolved | git-alot.py:134-140 | every switch resolves by one rule (untouched becomes on unless some switch was turned on); `fetch` and `update_cache` are unchanged |
| AlotOptions.ResolveSwitches | git-alot.py:134-140 | the `setattr` loop produces exactly `Resolved(parsed)` |
| AlotOptions.DefaultsEnableAllButCleared | git-alot.py:136-140 | with no `--X` given, a check is enabled iff it was not turned off with `--no-X` |
| AlotOptions.SpecificKeepsSelection | git-alot.py:134-140 | once some `--X` is given, every switch keeps its parsed value, so an untouched one stays off |
| AlotOptions.ResolvedIdempotent | git-alot.py:134-140 | resolving twice gives the same result as resolving once |
| AlotOptions.SomeCheckEnabled | git-alot.py:134-140 | unless every switch was cleared, at least one check is enabled after resolution |
| AlotOptions.SelectBase | git-alot.py:142-149 | no positional argument gives `$HOME`, one gives that argument, more gives an error whose surplus is all but the first argument |
| AlotOptions.ParseArgs | git-alot.py:132-151 | `parse_args` succeeds iff there is at most one positional argument, and then returns the resolved options and the selected base |
| AlotRepo.IndentLines | git-alot.py:40-42 | line k of `indent(t, i)` is `i` spaces followed by line k of `t` |
| AlotRepo.IndentNewlines | git-alot.py:40-42 | `indent` keeps the number of newlines |
| AlotRepo.IndentEmpty | git-alot.py:40-42 | `indent("", i)` is `i` spaces |
| AlotRepo.IndentZero | git-alot.py:40-42 | `indent(t, 0)` is `t` |
| AlotRepo.IndentSingleLine | git-alot.py:40-42 | a single line is indented by prefixing the spaces |
| AlotRepo.StashNoticeIndented | git-alot.py:97 | `indent("!! Problem reading stash !!")` is that message behind four spaces, the notice the report uses |
| AlotRepo.HasDirt | git-alot.py:56-67 | `has_dirt` is true iff at least one holds: worktree on and worktree dirty; index on and index dirty; untracked on and untracked files exist; stashes on and `refs/stash` exists |
| AlotRepo.BranchesIgnored | git-alot.py:56-108 | the `branches` switch changes neither `has_dirt` nor the report |
| AlotRepo.AllOffClean | git-alot.py:56-108 | with every check off, no repository is dirty and its report is its path alone |
| AlotRepo.DirtMonotone | git-alot.py:56-67 | enabling more checks never makes a dirty repository clean |
| AlotRepo.UntrackedListing | git-alot.py:83-90 | the heading reports the full count; the listing holds exactly the first min(count, 10) names, one per line, each behind four spaces; a "... and N more" line, with N the unlisted count, appears iff count > 10 |
| AlotRepo.StashItems | git-alot.py:102-105 | each stash entry contributes two report chunks |
| AlotRepo.StashItemAt | git-alot.py:102-105 | entry i is shown as its message behind four spaces, then the stat of `stash@{i}` behind seven |
| AlotRepo.UnreadableStash | git-alot.py:93-101 | a stash log that cannot be read gives the "Problem reading stash" notice and "0 item(s) in stash", and nothing more |
| AlotRepo.ReadableStash | git-alot.py:101-105 | a readable log of n entries, including n = 0, gives exactly 1 + 2n chunks: the heading with n, then for every i < n entry i's message and stat at positions 1+2i and 2+2i |
| AlotRepo.ReportShowsDirt | git-alot.py:69-108 | the report starts with `working_dir`, and it has anything after that iff `has_dirt` holds |
| AlotRepo.AppendUntracked | git-alot.py:83-90 | the appends of the untracked part add exactly the untracked section |
| AlotRepo.AppendStash | git-alot.py:92-105 | the stash part, including its loop over the log, appends exactly the stash section |
| AlotRepo.Render | git-alot.py:69-108 | `__str__` joins, with newlines, the working directory and then the worktree, index, untracked and stash sections, in that order |
| AlotMain.ReadCache | git-alot.py:174 | reading the cache always gives at least one path |
| AlotMain.CacheRoundTrip | git-alot.py:169-174 | writing a non-empty list of newline-free paths and reading it back gives the same list in the same order |
| AlotMain.CacheTextRoundTrip | git-alot.py:169-174 | reading the cache text and writing it again reproduces the text |
| AlotMain.UnderBaseMembers | git-alot.py:175-176 | the reload filter keeps exactly the paths with `abspath(base)` as a plain string prefix, so a sibling such as `/a/proj2` is kept for `/a/proj` |
| AlotMain.UnderBaseInOrder | git-alot.py:176 | the reload filter keeps the cached order |
| AlotMain.LoadRepos | git-alot.py:165-176 | with `--update-cache` or no cache file: the scan is used unfiltered and written to the cache; otherwise: the cached paths under the base, and nothing written |
| AlotMain.CacheReload | git-alot.py:165-176 | a later run without `--update-cache` sees the paths the scanning run wrote, restricted to its own base |
| AlotMain.DirtyMembers | git-alot.py:191 | the dirty list holds exactly the repositories with dirt, and it is no longer than the repository list |
| AlotMain.ClassifyByCounts | git-alot.py:200-212 | each verdict bucket as an exact integer condition on the clean count `c` and the total `n` (`4c >= 3n`, `2c >= n`, `4c >= n`, `c > 0`) |
| AlotMain.ClassifyMonotone | git-alot.py:200-212 | more clean repositories never give a worse verdict |
| AlotMain.ExitZeroIffAllClean | git-alot.py:200-213 | the exit status is 0 iff every repository is clean (this includes zero repositories), and 1 otherwise |
| AlotMain.RenderAll | git-alot.py:194-196 | one report per dirty repository, in order, each the newline join of its report chunks |
| AlotMain.Survey | git-alot.py:180-213 | with `--fetch`, the result is the non-bare repositories and status 0; otherwise the reports are of the dirty non-bare repositories, a permutation sorted by `working_dir`; the clean count is the total minus the dirty count; the verdict and status follow from the counts |
| AlotMain.Run | git-alot.py:161-213 | too many arguments give status 1, no cache write and no output; otherwise the cache write is that of `LoadRepos`, and the output and status are those the survey promises (fetch result, or the sorted dirty reports, counts and verdict) for the loaded paths opened as repositories; the status is 0 iff the arguments are accepted and either `--fetch` was given or no surveyed repository is dirty |
| Ordering.LessTotal | git-alot.py:48-50 | any two different paths are ordered one way or the other |
| Ordering.LessTransitive | cmd/git-alot/main.go:159 | string order is transitive |
| Ordering.NotAfterTransitive | cmd/git-alot/main.go:159 | "not after" is transitive, so together with totality it is a total preorder for sorting |
| Ordering.SortByKey | cmd/git-alot/main.go:149-159 | the in-place sort leaves the array sorted by the key and a permutation of its old contents (also `dirty_repos.sort()`, git-alot.py:192) |
| Ordering.Insert | cmd/git-alot/main.go:158-159 | the adjacent swaps leave the first i + 1 items a sorted permutation of their old values, and every item behind position i unchanged |
| Paths.DirBaseOfJoin | cmd/git-alot/main.go:35-40 | for a name without slashes under a non-empty directory, `Dir` of the join is the directory and `Base` is the name |
| GoRepo.FirstLine | cmd/git-alot/main.go:167-168 | the text up to, but not including, the first newline |
| GoRepo.GitDirTarget | cmd/git-alot/main.go:167-172 | `^gitdir: (.*)` matches iff the content starts with "gitdir: "; the capture is the rest of the first line |
| GoRepo.GitDir | cmd/git-alot/main.go:161-174 | the corrected `getGitDir`: a `.git` file resolves iff it can be read and matches, as in the source; a relative target is joined under the directory of the file, as in the source; an absolute target is kept, where the source at line 173 joins it too |
| GoRepo.AbsoluteTargetMisresolved | cmd/git-alot/main.go:173 | in the model of the code as written (without `filepath.Clean`), an absolute target `t` in `d/.git`, for any non-empty directory `d`, resolves to `d/` followed by `t`, which is not `t`; in Go this holds for every directory other than the root; the corrected resolution gives `t` |
| GoRepo.FirstLineUpTo | cmd/git-alot/main.go:167 | the capture stops at the first newline |
| GoRepo.NewRepo | cmd/git-alot/main.go:25-42 | for a non-regular `.git`, `Dir` is the path itself; for a regular file, `Dir` comes from the corrected `GitDir` (see Left out) and an unreadable or non-matching file is an error; `WorkTree` is always the parent of `.git` |
| GoRepo.NewRepoWorkTree | cmd/git-alot/main.go:25-42 | for `d/.git`, the work tree is `d`, and a `.git` directory gives `Repo(d/.git, d)` |
| GoRepo.ContributionExactly | cmd/git-alot/main.go:135-145 | a walked path contributes a repository iff it is named `.git` and `NewRepo` succeeds on it |
| GoRepo.CollectedFrom | cmd/git-alot/main.go:134-147 | the collected repositories are exactly those that some walked path contributes |
| GoRepo.CollectedExactly | cmd/git-alot/main.go:134-147 | a repository is collected iff some walked `.git` path yields it through `NewRepo`; failures are skipped |
| GoRepo.Gather | cmd/git-alot/main.go:134-147 | applying the walk callback to every walked path gives exactly the collected repositories, in walk order |
| GoRepo.ListRepositories | cmd/git-alot/main.go:128-152 | the result is a permutation of the collected repositories, sorted by work tree |
| GoStatus.LeadingField | cmd/git-alot/main.go:69 | the first field is a maximal run of non-space characters |
| GoStatus.Fields | cmd/git-alot/main.go:69 | every field of `strings.Fields` is non-empty and has no white space |
| GoStatus.FieldsAfterSpaces | cmd/git-alot/main.go:69 | leading white space does not change the fields |
| GoStatus.FieldsOfWord | cmd/git-alot/main.go:69 | a word followed by white space is the first field |
| GoStatus.PorcelainFields | cmd/git-alot/main.go:69-70 | a porcelain line `[spaces] code spaces name` has exactly the fields `code` and `name` |
| GoStatus.GroupingStep | cmd/git-alot/main.go:78 | one `append` keeps the map in step with the entries seen so far |
| GoStatus.GroupStatus | cmd/git-alot/main.go:66-79 | the map's keys are the status codes of the retained lines, and under each code are that code's names in line order |
| GoStatus.EntriesAppend | cmd/git-alot/main.go:68-79 | the entries of consecutive blocks of lines follow one another |
| GoStatus.GroupingKeepsOrder | cmd/git-alot/main.go:78 | the names under a code for `a + b` are those for `a` followed by those for `b` |
| GoStatus.KeptLineListed | cmd/git-alot/main.go:72-78 | a line that is not skipped has its entry among the entries |
| GoStatus.OnlySkippedDropped | cmd/git-alot/main.go:72-77 | a line is dropped only by the special case, so a line whose code is not `??` is never dropped |
| GoStatus.NoEntriesIffAllDropped | cmd/git-alot/main.go:68-79 | there are no entries iff every line is dropped |
| GoStatus.CleanIffAllSkipped | cmd/git-alot/main.go:105-108 | a repository counts as clean (empty map) iff every status line falls under the special case |

## Left out

- GoRepo.NewRepo: a regular `.git` file is resolved with the corrected
  `GitDir`, not the `getGitDir` of cmd/git-alot/main.go:173. For an absolute
  `gitdir:` target the model gives the target itself, where the source joins
  it under the file's directory (see Findings). `Contribution`, `Collected`,
  `Gather`, `ListRepositories` and the lemmas about them inherit this. For
  relative targets and for `.git` directories the model matches the source.

- Process spawning is left out: `find` (git-alot.py:32-38), `git status`
  with its scanner plumbing, and `git fetch --all`. The model takes their
  results as inputs: the `find` function, the status lines, and the fetched
  list.
- GitPython is left out. Its answers are the fields of `Snapshot`, and the
  output of `git stash show --stat` is the parameter `show`. `git.Repo`
  failing on a path is not modelled.
- File system and environment access is left out: `cachedir`, `makedirs`,
  opening the cache file, `exists`, `abspath`, `os.Stat` in `hasRemotes`,
  and `ioutil.ReadFile`. Their results are parameters.
- All printing is left out: "Searching…", "Found N…", log lines, and the
  Go `main` loop's output. A `Survey` returns the report texts and the
  verdict line instead of printing them.
- `optparse` itself and the `sys.excepthook` override are left out.
- `fastwalk.Walk`'s concurrency and mutex are left out. The walk is a
  sequence, and only the filter-then-sort outcome is modelled.
- Paths: `filepath.Clean` is not modelled. That covers the explicit call
  in `getGitDir` (cmd/git-alot/main.go:173) and the cleaning that
  `filepath.Join` and `filepath.Dir` perform. `Paths` is a plain
  slash-separated model, exact for paths that are already clean. The most
  visible effect is on the skip rule of `NewGitStatus`. Porcelain output
  lists an untracked directory with a trailing slash. For the work tree `foo`
  and the line `?? foo/`, Go cleans `Join("foo", "foo/")` to `foo/foo` and
  skips the line. `GoStatus.SkipRule` sees `foo/foo/` and keeps it, so
  `OnlySkippedDropped` and `CleanIffAllSkipped` are stated for that
  uncleaned rule.
- GoRepo.AbsoluteTargetMisresolved: the as-written result is stated without
  `Clean`. Go's result collapses the double slash. It still differs from the
  target unless `d` cleans to `/`: for a `.git` file in the root directory,
  Go's cleaned join gives the target itself.
- Strings are sequences of code points. There is no byte encoding, and
  `unicode.IsSpace` is written out for code points.
- AlotMain.Classify: Python compares with the floats `0.75*nrepos`,
  `0.5*nrepos` and `0.25*nrepos`. The model uses exact reals. The two agree
  because these fractions are exact in binary floating point for any
  realistic count.
- Ordering.SortByKey: stability is not stated. `list.sort()` is stable and
  `sort.Sort` is not; the model only promises a sorted permutation.
- GoStatus.GroupStatus: lines with fewer than two fields are excluded by a
  precondition, because the source panics on them at `fields[1]`.
- The Go `main` loop, which prints each dirty repository's map sizes, and
  `hasRemotes` are not modelled beyond the clean test.

## Findings

| source | as written | input that shows it | evidently intended | confidence | as-written member | corrected member |
|---|---|---|---|---|---|---|
| cmd/git-alot/main.go:173 | the `gitdir:` target is always joined under the directory of the `.git` file | a relative directory `wt` whose `wt/.git` file holds `gitdir: /r/.git/worktrees/wt` resolves to a path under `wt/` instead of `/r/.git/worktrees/wt` | an absolute target is the git directory itself; only a relative one is resolved against the file's directory | not executed; medium | GoRepo.AbsoluteTargetMisresolved | GoRepo.GitDir |
