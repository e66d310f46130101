/**
 * String helpers with the semantics of the Python built-ins the tool uses:
 * `" " * n`, `sep.join(parts)`, `s.split(c)` and `"{0}".format(n)` for a
 * natural number.  The facts proved here (split undoes join, join undoes
 * split, decimal formatting can be read back) are what the report and the
 * path cache rely on.
 */
module Text {

  /** Python's `" " * n`. */
  function Spaces(n: nat): string
  {
    seq(n, _ => ' ')
  }

  /** Python's `sep.join(parts)`: the parts with `sep` between neighbours. */
  function Join(sep: string, parts: seq<string>): string
  {
    if |parts| == 0 then ""
    else if |parts| == 1 then parts[0]
    else parts[0] + sep + Join(sep, parts[1..])
  }

  /**
   * Python's `s.split(c)` for a one-character separator `c`: the maximal
   * pieces between occurrences of `c`.  It is never empty (`"".split(c)` is
   * `[""]`) and has one more piece than `s` has separators.
   */
  function Split(s: string, c: char): (r: seq<string>)
    ensures |r| >= 1
  {
    if s == [] then [""]
    else
      assert s == [s[0]] + s[1..];
      var rest := Split(s[1..], c);
      if s[0] == c then [""] + rest
      else [[s[0]] + rest[0]] + rest[1..]
  }

  /** `Split` has one more piece than `s` has separators, and no piece holds one. */
  lemma {:induction false} SplitPieces(s: string, c: char)
    ensures |Split(s, c)| == multiset(s)[c] + 1
    ensures forall k :: 0 <= k < |Split(s, c)| ==> c !in Split(s, c)[k]
  {
    if s != [] {
      assert s == [s[0]] + s[1..];
      SplitPieces(s[1..], c);
    }
  }

  /** `[p + x for x in parts]`. */
  function PrefixEach(p: string, parts: seq<string>): (r: seq<string>)
    ensures |r| == |parts|
    ensures forall k :: 0 <= k < |r| ==> r[k] == p + parts[k]
  {
    if parts == [] then [] else [p + parts[0]] + PrefixEach(p, parts[1..])
  }

  lemma JoinCons(sep: string, x: string, tail: seq<string>)
    ensures Join(sep, [x] + tail) == if tail == [] then x else x + sep + Join(sep, tail)
  {
    assert ([x] + tail)[1..] == tail;
  }

  /** Splitting at the first separator peels off the text before it. */
  lemma {:induction false} SplitAtFirst(x: string, c: char, y: string)
    requires c !in x
    ensures Split(x + [c] + y, c) == [x] + Split(y, c)
  {
    if x == [] {
      assert x + [c] + y == [c] + y;
      assert ([c] + y)[1..] == y;
    } else {
      var s := x + [c] + y;
      assert s[0] == x[0] && s[1..] == x[1..] + [c] + y;
      SplitAtFirst(x[1..], c, y);
      assert [x[0]] + x[1..] == x;
    }
  }

  /** A string without the separator splits into itself alone. */
  lemma {:induction false} SplitWithout(x: string, c: char)
    requires c !in x
    ensures Split(x, c) == [x]
  {
    if x != [] {
      SplitWithout(x[1..], c);
      assert [x[0]] + x[1..] == x;
    }
  }

  /**
   * Split undoes join: a non-empty list of pieces none of which contains the
   * separator comes back unchanged.
   */
  lemma {:induction false} SplitJoin(parts: seq<string>, c: char)
    requires |parts| >= 1
    requires forall k :: 0 <= k < |parts| ==> c !in parts[k]
    ensures Split(Join([c], parts), c) == parts
  {
    if |parts| == 1 {
      SplitWithout(parts[0], c);
    } else {
      SplitJoin(parts[1..], c);
      SplitAtFirst(parts[0], c, Join([c], parts[1..]));
      assert [parts[0]] + parts[1..] == parts;
    }
  }

  /** One step of `Split`: how the pieces of `s` relate to those of `s[1..]`. */
  lemma SplitStep(s: string, c: char)
    requires s != []
    ensures var rest := Split(s[1..], c);
      Split(s, c) == if s[0] == c then [""] + rest else [[s[0]] + rest[0]] + rest[1..]
  {
  }

  /** Gluing a piece onto the front of the first piece of a list. */
  lemma JoinGlueFront(c: char, x: string, head: string, tail: seq<string>)
    ensures Join([c], [x + head] + tail) == x + Join([c], [head] + tail)
  {
    JoinCons([c], x + head, tail);
    JoinCons([c], head, tail);
  }

  /** Join undoes split: gluing the pieces back with the separator gives `s`. */
  lemma {:induction false} JoinSplit(s: string, c: char)
    ensures Join([c], Split(s, c)) == s
  {
    if s != [] {
      JoinSplit(s[1..], c);
      var rest := Split(s[1..], c);
      SplitStep(s, c);
      if s[0] == c {
        JoinCons([c], "", rest);
        assert Join([c], Split(s, c)) == [c] + s[1..];
      } else {
        assert [rest[0]] + rest[1..] == rest;
        JoinGlueFront(c, [s[0]], rest[0], rest[1..]);
        assert Join([c], Split(s, c)) == [s[0]] + s[1..];
      }
      assert [s[0]] + s[1..] == s;
    }
  }

  /** A joined list starts with its first piece. */
  lemma JoinStartsWithFirst(sep: string, parts: seq<string>)
    requires |parts| >= 1
    ensures parts[0] <= Join(sep, parts)
  {
    if |parts| > 1 {
      assert Join(sep, parts) == parts[0] + (sep + Join(sep, parts[1..]));
    }
  }

  /** `p + (sep + p).join(parts)` puts `p` in front of every piece. */
  lemma {:induction false} JoinPrefixed(p: string, sep: string, parts: seq<string>)
    requires |parts| >= 1
    ensures p + Join(sep + p, parts) == Join(sep, PrefixEach(p, parts))
  {
    if |parts| > 1 {
      JoinPrefixed(p, sep, parts[1..]);
      assert PrefixEach(p, parts)[1..] == PrefixEach(p, parts[1..]);
    }
  }

  function DecimalDigit(d: nat): (c: char)
    requires d < 10
    ensures '0' <= c <= '9'
  {
    ('0' as int + d) as char
  }

  predicate IsDigits(s: string)
  {
    forall k :: 0 <= k < |s| ==> '0' <= s[k] <= '9'
  }

  /** Python's `"{0}".format(n)` for a natural number: decimal, no leading zero. */
  function NatToString(n: nat): (r: string)
    ensures |r| >= 1 && IsDigits(r)
    ensures r[0] == '0' ==> n == 0 && r == "0"
  {
    if n < 10 then [DecimalDigit(n)]
    else NatToString(n / 10) + [DecimalDigit(n % 10)]
  }

  /** The number a string of decimal digits denotes. */
  function DecimalValue(s: string): nat
    requires IsDigits(s)
  {
    if s == [] then 0
    else DecimalValue(s[..|s| - 1]) * 10 + (s[|s| - 1] as int - '0' as int)
  }

  /** The decimal text of a count denotes that count. */
  lemma {:induction false} DecimalRoundTrip(n: nat)
    ensures DecimalValue(NatToString(n)) == n
  {
    if n >= 10 {
      DecimalRoundTrip(n / 10);
      var s := NatToString(n);
      assert s[..|s| - 1] == NatToString(n / 10);
    }
  }
}
