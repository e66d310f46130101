/**
 * The order in which both versions of the tool list repositories: Python's
 * `str <` (used by `AlotRepo.__lt__`) and Go's string `<` (used by
 * `ByWorkTree.Less`) are the same lexicographic order on code points.  The
 * in-place sort below is shared by `dirty_repos.sort()` and
 * `sort.Sort(ByWorkTree(repos))`.
 */
module Ordering {

  /** Lexicographic "strictly before": a proper prefix, or smaller at the first difference. */
  predicate Less(a: string, b: string)
  {
    if a == [] then b != []
    else if b == [] then false
    else if a[0] != b[0] then a[0] < b[0]
    else Less(a[1..], b[1..])
  }

  /** "Not after": the relation a sorted list keeps between earlier and later items. */
  predicate NotAfter(a: string, b: string)
  {
    !Less(b, a)
  }

  lemma {:induction false} LessIrreflexive(a: string)
    ensures !Less(a, a)
  {
    if a != [] {
      LessIrreflexive(a[1..]);
    }
  }

  lemma {:induction false} LessTransitive(a: string, b: string, c: string)
    requires Less(a, b) && Less(b, c)
    ensures Less(a, c)
  {
    if a != [] && a[0] == b[0] && b[0] == c[0] {
      LessTransitive(a[1..], b[1..], c[1..]);
    }
  }

  lemma LessAsymmetric(a: string, b: string)
    requires Less(a, b)
    ensures !Less(b, a)
  {
    if Less(b, a) {
      LessTransitive(a, b, a);
      LessIrreflexive(a);
    }
  }

  /** Any two different strings are ordered one way or the other. */
  lemma {:induction false} LessTotal(a: string, b: string)
    ensures a == b || Less(a, b) || Less(b, a)
  {
    if a != [] && b != [] && a[0] == b[0] {
      LessTotal(a[1..], b[1..]);
      if a[1..] == b[1..] {
        assert a == [a[0]] + a[1..] && b == [b[0]] + b[1..];
      }
    }
  }

  /** "Not after" is a total preorder, so "sorted" is a sensible notion. */
  lemma NotAfterTransitive(a: string, b: string, c: string)
    requires NotAfter(a, b) && NotAfter(b, c)
    ensures NotAfter(a, c)
  {
    LessTotal(a, b);
    if Less(c, a) && Less(a, b) {
      LessTransitive(c, a, b);
    }
  }

  /** Every item is "not after" every later one, comparing by `key`. */
  ghost predicate SortedBy<T>(s: seq<T>, key: T -> string)
  {
    forall i, j :: 0 <= i < j < |s| ==> NotAfter(key(s[i]), key(s[j]))
  }

  /**
   * Sorts `a` in place by `key` (insertion sort by adjacent swaps); only the
   * order of the items changes.
   */
  method SortByKey<T>(a: array<T>, key: T -> string)
    modifies a
    ensures SortedBy(a[..], key)
    ensures multiset(a[..]) == old(multiset(a[..]))
  {
    var i := 0;
    while i < a.Length
      invariant 0 <= i <= a.Length
      invariant SortedBy(a[..i], key)
      invariant multiset(a[..]) == old(multiset(a[..]))
    {
      Insert(a, i, key);
      i := i + 1;
    }
    assert a[..a.Length] == a[..];
  }

  /**
   * While `Insert` moves the item at `j` down: apart from position `j`, the
   * first `i + 1` items are in order, and the item at `j` is not after any
   * item behind it.
   */
  ghost predicate Inserting<T>(s: seq<T>, i: nat, j: nat, key: T -> string)
  {
    && j <= i < |s|
    && (forall k, l :: 0 <= k < l <= i && k != j && l != j ==> NotAfter(key(s[k]), key(s[l])))
    && (forall l :: j < l <= i ==> NotAfter(key(s[j]), key(s[l])))
  }

  lemma InsertStart<T>(s: seq<T>, i: nat, key: T -> string)
    requires i < |s| && SortedBy(s[..i], key)
    ensures Inserting(s, i, i, key)
  {
    forall k, l | 0 <= k < l <= i && k != i && l != i
      ensures NotAfter(key(s[k]), key(s[l]))
    {
      assert s[k] == s[..i][k] && s[l] == s[..i][l];
    }
  }

  lemma InsertStep<T>(s: seq<T>, i: nat, j: nat, key: T -> string)
    requires Inserting(s, i, j, key)
    requires 0 < j && Less(key(s[j]), key(s[j - 1]))
    ensures Inserting(s[j - 1 := s[j]][j := s[j - 1]], i, j - 1, key)
  {
    LessAsymmetric(key(s[j]), key(s[j - 1]));
  }

  lemma InsertDone<T>(s: seq<T>, i: nat, j: nat, key: T -> string)
    requires Inserting(s, i, j, key)
    requires j == 0 || !Less(key(s[j]), key(s[j - 1]))
    ensures SortedBy(s[..i + 1], key)
  {
    forall k, l | 0 <= k < l <= i && l == j && k < j - 1
      ensures NotAfter(key(s[k]), key(s[l]))
    {
      NotAfterTransitive(key(s[k]), key(s[j - 1]), key(s[j]));
    }
  }

  /** Swapping two neighbours below `i + 1` permutes the first `i + 1` items and leaves the rest. */
  lemma SwapKeepsItems<T>(s: seq<T>, t: seq<T>, i: nat, j: nat)
    requires 0 < j <= i < |s|
    requires t == s[j - 1 := s[j]][j := s[j - 1]]
    ensures multiset(t[..i + 1]) == multiset(s[..i + 1])
    ensures t[i + 1..] == s[i + 1..]
    ensures multiset(t) == multiset(s)
  {
    assert t[..i + 1] == s[..i + 1][j - 1 := s[j]][j := s[j - 1]];
  }

  /**
   * Moves `a[i]` down into the sorted prefix `a[..i]`, making `a[..i + 1]` a
   * sorted permutation of its old items; the items behind `i` stay put.
   */
  method Insert<T>(a: array<T>, i: nat, key: T -> string)
    requires i < a.Length
    requires SortedBy(a[..i], key)
    modifies a
    ensures SortedBy(a[..i + 1], key)
    ensures multiset(a[..i + 1]) == multiset(old(a[..i + 1]))
    ensures a[i + 1..] == old(a[i + 1..])
    ensures multiset(a[..]) == old(multiset(a[..]))
  {
    ghost var o := a[..];
    var j := i;
    InsertStart(a[..], i, key);
    while j > 0 && Less(key(a[j]), key(a[j - 1]))
      invariant 0 <= j <= i
      invariant Inserting(a[..], i, j, key)
      invariant multiset(a[..]) == old(multiset(a[..]))
      invariant multiset(a[..i + 1]) == multiset(o[..i + 1])
      invariant a[i + 1..] == o[i + 1..]
    {
      ghost var before := a[..];
      InsertStep(before, i, j, key);
      a[j - 1], a[j] := a[j], a[j - 1];
      assert a[..] == before[j - 1 := before[j]][j := before[j - 1]];
      SwapKeepsItems(before, a[..], i, j);
      j := j - 1;
    }
    InsertDone(a[..], i, j, key);
  }
}
