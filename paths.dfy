/**
 * Slash-separated paths with the shape of Go's `filepath.Join`, `filepath.Dir`
 * and `filepath.Base`, without the lexical clean-up (`filepath.Clean`) those
 * functions also perform.
 */
module Paths {

  /** Index of the last '/' in `p`, or -1 when there is none. */
  function LastSlash(p: string): (k: int)
    ensures -1 <= k < |p|
  {
    if p == [] then -1
    else if p[|p| - 1] == '/' then |p| - 1
    else LastSlash(p[..|p| - 1])
  }

  /** `LastSlash` finds a '/', and no '/' comes after it. */
  lemma {:induction false} LastSlashIsLast(p: string)
    ensures var k := LastSlash(p);
      && (k >= 0 ==> p[k] == '/')
      && (forall m :: k < m < |p| ==> p[m] != '/')
  {
    if p != [] && p[|p| - 1] != '/' {
      LastSlashIsLast(p[..|p| - 1]);
    }
  }

  /** `p` without its trailing slashes. */
  function TrimTrailingSlashes(p: string): (q: string)
    ensures q <= p
    ensures q == [] || q[|q| - 1] != '/'
  {
    if p != [] && p[|p| - 1] == '/' then TrimTrailingSlashes(p[..|p| - 1]) else p
  }

  /** `filepath.Join(a, b)`: empty elements are ignored, the others joined by '/'. */
  function Join(a: string, b: string): string
  {
    if a == [] then b else if b == [] then a else a + "/" + b
  }

  /**
   * `filepath.Dir(p)`: everything before the last '/'; "." when there is no
   * '/', and "/" when the only '/' is the first character.
   */
  function Dir(p: string): string
  {
    var k := LastSlash(p);
    if k < 0 then "." else if k == 0 then "/" else p[..k]
  }

  /**
   * `filepath.Base(p)`: the last element once trailing slashes are dropped;
   * "." for the empty path and "/" for a path of slashes only.
   */
  function Base(p: string): (r: string)
    ensures r != []
  {
    if p == [] then "."
    else
      var q := TrimTrailingSlashes(p);
      if q == [] then "/" else q[LastSlash(q) + 1..]
  }

  /** A name without slashes, joined under a non-empty directory, splits back into the two. */
  lemma DirBaseOfJoin(dir: string, name: string)
    requires dir != [] && name != []
    requires '/' !in name
    ensures Dir(Join(dir, name)) == dir
    ensures Base(Join(dir, name)) == name
  {
    var p := dir + "/" + name;
    LastSlashIsLast(p);
    assert p[|dir|] == '/';
    assert forall m :: |dir| < m < |p| ==> p[m] == name[m - |dir| - 1];
    assert LastSlash(p) == |dir|;
    assert TrimTrailingSlashes(p) == p;
    assert p[..|dir|] == dir;
    assert p[|dir| + 1..] == name;
  }
}
