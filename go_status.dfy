/**
 * The grouping of `git status --porcelain` lines in the Go version
 * (`NewGitStatus`, cmd/git-alot/main.go): each line is split into
 * whitespace-separated fields, and the second field is appended to the list
 * kept under the first (the status code), except for untracked files named
 * like their directory.
 */
module GoStatus {
  import Paths

  /** Go's `unicode.IsSpace`. */
  predicate IsSpace(c: char)
  {
    || c == ' ' || c == '\t' || c == '\n' || c == '\r'
    || c as int == 0x0B || c as int == 0x0C || c as int == 0x85 || c as int == 0xA0
    || c as int == 0x1680 || (0x2000 <= c as int <= 0x200A)
    || c as int == 0x2028 || c as int == 0x2029 || c as int == 0x202F
    || c as int == 0x205F || c as int == 0x3000
  }

  /** A field: a non-empty run of non-space characters. */
  predicate IsField(w: string)
  {
    w != [] && forall k :: 0 <= k < |w| ==> !IsSpace(w[k])
  }

  predicate AllSpace(w: string)
  {
    forall k :: 0 <= k < |w| ==> IsSpace(w[k])
  }

  /** The longest run of non-space characters at the start of `s`. */
  function LeadingField(s: string): (w: string)
    requires s != [] && !IsSpace(s[0])
    ensures IsField(w) && w <= s
    ensures |w| == |s| || IsSpace(s[|w|])
  {
    if |s| == 1 || IsSpace(s[1]) then [s[0]] else [s[0]] + LeadingField(s[1..])
  }

  /** Go's `strings.Fields`: the maximal runs of non-space characters, in order. */
  function Fields(s: string): (r: seq<string>)
    ensures forall k :: 0 <= k < |r| ==> IsField(r[k])
    decreases |s|
  {
    if s == [] then []
    else if IsSpace(s[0]) then Fields(s[1..])
    else
      var w := LeadingField(s);
      [w] + Fields(s[|w|..])
  }

  lemma {:induction false} FieldsAfterSpaces(w: string, t: string)
    requires AllSpace(w)
    ensures Fields(w + t) == Fields(t)
  {
    if w != [] {
      assert (w + t)[0] == w[0] && IsSpace(w[0]);
      assert (w + t)[1..] == w[1..] + t;
      FieldsAfterSpaces(w[1..], t);
    } else {
      assert w + t == t;
    }
  }

  lemma {:induction false} LeadingFieldOf(x: string, t: string)
    requires IsField(x)
    requires t == [] || IsSpace(t[0])
    ensures LeadingField(x + t) == x
  {
    if |x| > 1 {
      assert (x + t)[1..] == x[1..] + t;
      LeadingFieldOf(x[1..], t);
      assert [x[0]] + x[1..] == x;
    }
  }

  lemma FieldsOfWord(x: string, t: string)
    requires IsField(x)
    requires t == [] || IsSpace(t[0])
    ensures Fields(x + t) == [x] + Fields(t)
  {
    LeadingFieldOf(x, t);
    assert (x + t)[|x|..] == t;
  }

  /**
   * A porcelain line `[spaces] code spaces name` has exactly the fields
   * `code` and `name`: " M file" and "M  file" both give ["M", "file"].
   */
  lemma PorcelainFields(lead: string, code: string, gap: string, name: string)
    requires AllSpace(lead) && AllSpace(gap) && gap != []
    requires IsField(code) && IsField(name)
    ensures Fields(lead + code + gap + name) == [code, name]
  {
    assert lead + code + gap + name == lead + (code + (gap + name));
    FieldsAfterSpaces(lead, code + (gap + name));
    FieldsOfWord(code, gap + name);
    FieldsAfterSpaces(gap, name);
    assert name == name + [];
    FieldsOfWord(name, []);
  }

  /** Lines `NewGitStatus` can index: fewer than two fields would panic at `fields[1]`. */
  predicate InDomain(lines: seq<string>)
  {
    forall k :: 0 <= k < |lines| ==> |Fields(lines[k])| >= 2
  }

  /** A retained line: its status code and its path. */
  datatype Entry = Entry(code: string, name: string)

  /**
   * The special case: an untracked (`??`) path whose joined path has a
   * directory equal to its base name is skipped.
   */
  predicate SkipRule(path: string, code: string, name: string)
  {
    var fullPath := Paths.Join(path, name);
    Paths.Dir(fullPath) == Paths.Base(fullPath) && code == "??"
  }

  /** The skip decision for a repository at `path`, as a function of code and name. */
  function SkipFor(path: string): (string, string) -> bool
  {
    (code, name) => SkipRule(path, code, name)
  }

  /** Whether `skip` drops a line, judged on its first two fields. */
  predicate Dropped(skip: (string, string) -> bool, line: string)
    requires |Fields(line)| >= 2
  {
    skip(Fields(line)[0], Fields(line)[1])
  }

  function EntryOf(line: string): Entry
    requires |Fields(line)| >= 2
  {
    Entry(Fields(line)[0], Fields(line)[1])
  }

  /** The entries of the lines `skip` keeps, in line order. */
  function Entries(skip: (string, string) -> bool, lines: seq<string>): seq<Entry>
    requires InDomain(lines)
  {
    if lines == [] then []
    else
      var last := lines[|lines| - 1];
      Entries(skip, lines[..|lines| - 1]) + (if Dropped(skip, last) then [] else [EntryOf(last)])
  }

  /** The names listed under `code`, in order. */
  function NamesWith(entries: seq<Entry>, code: string): seq<string>
  {
    if entries == [] then []
    else
      var last := entries[|entries| - 1];
      NamesWith(entries[..|entries| - 1], code) + (if last.code == code then [last.name] else [])
  }

  /** The status codes that occur among the entries. */
  function Codes(entries: seq<Entry>): set<string>
  {
    set e | e in entries :: e.code
  }

  lemma CodesSnoc(es: seq<Entry>, e: Entry)
    ensures Codes(es + [e]) == Codes(es) + {e.code}
  {
    assert forall x :: x in es + [e] <==> x in es || x == e;
  }

  lemma NamesWithSnoc(es: seq<Entry>, e: Entry, code: string)
    ensures NamesWith(es + [e], code) == NamesWith(es, code) + (if e.code == code then [e.name] else [])
  {
    assert (es + [e])[..|es|] == es;
  }

  lemma EntriesSnoc(skip: (string, string) -> bool, lines: seq<string>, i: nat)
    requires InDomain(lines) && i < |lines|
    ensures InDomain(lines[..i]) && InDomain(lines[..i + 1])
    ensures Dropped(skip, lines[i]) ==> Entries(skip, lines[..i + 1]) == Entries(skip, lines[..i])
    ensures !Dropped(skip, lines[i]) ==> Entries(skip, lines[..i + 1]) == Entries(skip, lines[..i]) + [EntryOf(lines[i])]
  {
    assert lines[..i + 1][..i] == lines[..i];
    assert Entries(skip, lines[..i]) + [] == Entries(skip, lines[..i]);
  }

  lemma {:induction false} NamesWithAbsent(es: seq<Entry>, code: string)
    requires code !in Codes(es)
    ensures NamesWith(es, code) == []
  {
    if es != [] {
      var init := es[..|es| - 1];
      assert Codes(init) <= Codes(es);
      NamesWithAbsent(init, code);
    }
  }

  /** Grouping one more entry keeps the map in step with the entries. */
  lemma GroupingStep(files: map<string, seq<string>>, before: seq<Entry>, e: Entry)
    requires files.Keys == Codes(before)
    requires forall code :: code in files ==> files[code] == NamesWith(before, code)
    ensures var next := files[e.code := (if e.code in files then files[e.code] else []) + [e.name]];
      && next.Keys == Codes(before + [e])
      && forall code :: code in next ==> next[code] == NamesWith(before + [e], code)
  {
    CodesSnoc(before, e);
    if e.code !in files {
      NamesWithAbsent(before, e.code);
    }
    var next := files[e.code := (if e.code in files then files[e.code] else []) + [e.name]];
    forall code | code in next
      ensures next[code] == NamesWith(before + [e], code)
    {
      NamesWithSnoc(before, e, code);
    }
  }

  /**
   * The loop of `NewGitStatus`: the map has a key for each status code of a
   * retained line, and under it the names of those lines, in line order.
   */
  method GroupStatus(path: string, lines: seq<string>) returns (files: map<string, seq<string>>)
    requires InDomain(lines)
    ensures files.Keys == Codes(Entries(SkipFor(path), lines))
    ensures forall code :: code in files ==> files[code] == NamesWith(Entries(SkipFor(path), lines), code)
  {
    ghost var skip := SkipFor(path);
    files := map[];
    var i := 0;
    while i < |lines|
      invariant 0 <= i <= |lines|
      invariant files.Keys == Codes(Entries(skip, lines[..i]))
      invariant forall code :: code in files ==> files[code] == NamesWith(Entries(skip, lines[..i]), code)
    {
      EntriesSnoc(skip, lines, i);
      var fields := Fields(lines[i]);
      var first, second := fields[0], fields[1];
      if SkipRule(path, first, second) {
        i := i + 1;
        continue;
      }
      GroupingStep(files, Entries(skip, lines[..i]), Entry(first, second));
      files := files[first := (if first in files then files[first] else []) + [second]];
      i := i + 1;
    }
    assert lines[..|lines|] == lines;
  }

  /** Entries of consecutive blocks of lines follow one another. */
  lemma {:induction false} EntriesAppend(skip: (string, string) -> bool, a: seq<string>, b: seq<string>)
    requires InDomain(a) && InDomain(b)
    ensures InDomain(a + b)
    ensures Entries(skip, a + b) == Entries(skip, a) + Entries(skip, b)
    decreases |b|
  {
    assert InDomain(a + b) by {
      forall k | 0 <= k < |a + b| ensures |Fields((a + b)[k])| >= 2 {
        if k >= |a| {
          assert (a + b)[k] == b[k - |a|];
        }
      }
    }
    if b != [] {
      var b' := b[..|b| - 1];
      assert (a + b)[..|a + b| - 1] == a + b';
      EntriesAppend(skip, a, b');
    } else {
      assert a + b == a;
    }
  }

  lemma {:induction false} NamesWithAppend(x: seq<Entry>, y: seq<Entry>, code: string)
    ensures NamesWith(x + y, code) == NamesWith(x, code) + NamesWith(y, code)
    decreases |y|
  {
    if y != [] {
      assert (x + y)[..|x + y| - 1] == x + y[..|y| - 1];
      NamesWithAppend(x, y[..|y| - 1], code);
    } else {
      assert x + y == x;
    }
  }

  /**
   * Order within a key follows line order: the names listed under a code
   * for `a + b` are those for `a` followed by those for `b`.
   */
  lemma GroupingKeepsOrder(path: string, a: seq<string>, b: seq<string>, code: string)
    requires InDomain(a) && InDomain(b)
    ensures InDomain(a + b)
    ensures NamesWith(Entries(SkipFor(path), a + b), code) ==
      NamesWith(Entries(SkipFor(path), a), code) + NamesWith(Entries(SkipFor(path), b), code)
  {
    EntriesAppend(SkipFor(path), a, b);
    NamesWithAppend(Entries(SkipFor(path), a), Entries(SkipFor(path), b), code);
  }

  /** A line `skip` does not drop has its entry among the entries. */
  lemma {:induction false} KeptLineListed(skip: (string, string) -> bool, lines: seq<string>, i: nat)
    requires InDomain(lines) && i < |lines|
    ensures !Dropped(skip, lines[i]) ==> EntryOf(lines[i]) in Entries(skip, lines)
  {
    if i < |lines| - 1 {
      var init := lines[..|lines| - 1];
      assert init[i] == lines[i];
      KeptLineListed(skip, init, i);
    }
  }

  /**
   * A line is dropped only by the special case: every other line, and in
   * particular every line whose code is not `??`, has its entry kept.
   */
  lemma OnlySkippedDropped(path: string, lines: seq<string>, i: nat)
    requires InDomain(lines) && i < |lines|
    ensures !SkipRule(path, Fields(lines[i])[0], Fields(lines[i])[1]) ==> EntryOf(lines[i]) in Entries(SkipFor(path), lines)
    ensures Fields(lines[i])[0] != "??" ==> EntryOf(lines[i]) in Entries(SkipFor(path), lines)
  {
    KeptLineListed(SkipFor(path), lines, i);
  }

  lemma CodesEmpty(es: seq<Entry>)
    ensures Codes(es) == {} <==> es == []
  {
    if es != [] {
      assert es[0].code in Codes(es);
    }
  }

  /** No line yields an entry exactly when `skip` drops every line. */
  lemma {:induction false} NoEntriesIffAllDropped(skip: (string, string) -> bool, lines: seq<string>)
    requires InDomain(lines)
    ensures Entries(skip, lines) == [] <==> forall k :: 0 <= k < |lines| ==> Dropped(skip, lines[k])
  {
    if lines != [] {
      var n := |lines| - 1;
      var init := lines[..n];
      EntriesSnoc(skip, lines, n);
      assert lines[..n + 1] == lines;
      NoEntriesIffAllDropped(skip, init);
      if Dropped(skip, lines[n]) {
        assert Entries(skip, lines) == Entries(skip, init);
        if forall k :: 0 <= k < n ==> Dropped(skip, init[k]) {
          forall k | 0 <= k < |lines|
            ensures Dropped(skip, lines[k])
          {
            if k < n {
              assert init[k] == lines[k];
            }
          }
        } else {
          var k :| 0 <= k < n && !Dropped(skip, init[k]);
          assert init[k] == lines[k];
        }
      } else {
        assert Entries(skip, lines) == Entries(skip, init) + [EntryOf(lines[n])];
      }
    }
  }

  /**
   * A repository is clean (`len(st.Files) == 0`) exactly when every status
   * line falls under the special case.
   */
  lemma CleanIffAllSkipped(path: string, lines: seq<string>)
    requires InDomain(lines)
    ensures Codes(Entries(SkipFor(path), lines)) == {} <==>
      forall k :: 0 <= k < |lines| ==> SkipRule(path, Fields(lines[k])[0], Fields(lines[k])[1])
  {
    CodesEmpty(Entries(SkipFor(path), lines));
    NoEntriesIffAllDropped(SkipFor(path), lines);
  }
}
