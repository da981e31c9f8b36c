/**
 * Slash-separated path strings, as Node's `path.posix` module treats them.
 * Paths are compared as plain strings: there is no normalisation of `.`,
 * `..` or repeated separators beyond what `Dirname` itself does.
 */
module Paths {
  import opened Wrappers

  /** Index of the last `/` in `s`, if any. */
  function LastSlash(s: string): (r: Option<nat>)
    ensures r.None? <==> forall i :: 0 <= i < |s| ==> s[i] != '/'
    ensures r.Some? ==> r.value < |s| && s[r.value] == '/'
    ensures r.Some? ==> forall j :: r.value < j < |s| ==> s[j] != '/'
  {
    if |s| == 0 then None
    else if s[|s| - 1] == '/' then Some(|s| - 1)
    else LastSlash(s[..|s| - 1])
  }

  /**
   * The text after the last `/` of `s`, or all of `s` when it has none;
   * this is the last element of JavaScript's `s.split('/')`.
   */
  function LastSegment(s: string): (r: string)
    ensures '/' !in r
    ensures |r| <= |s| && r == s[|s| - |r|..]
    ensures |r| < |s| ==> s[|s| - |r| - 1] == '/'
  {
    match LastSlash(s)
    case None => s
    case Some(k) => s[k + 1..]
  }

  /** After `t + "/"`, a part without `/` leaves the appended `/` as the last one. */
  lemma {:induction false} LastSlashBeforeSegment(t: string, n: string)
    requires '/' !in n
    ensures LastSlash(t + "/" + n) == Some(|t|)
    ensures LastSegment(t + "/" + n) == n
  {
    var s := t + "/" + n;
    if n == [] {
      assert s[|s| - 1] == '/';
    } else {
      var n' := n[..|n| - 1];
      assert s[|s| - 1] == n[|n| - 1];
      assert s[..|s| - 1] == t + "/" + n';
      LastSlashBeforeSegment(t, n');
    }
    assert s[|t| + 1..] == n;
  }

  /**
   * One step of Node's `path.posix.dirname` scan: walking `p` backwards from
   * index `i` down to 1, the index of the first `/` met after at least one
   * non-`/` character (or -1 when there is none). `matchedSlash` is true
   * while only `/` characters have been seen.
   */
  function DirnameEnd(p: string, i: int, matchedSlash: bool): (end: int)
    requires i < |p|
    decreases i
    ensures end == -1 || (1 <= end <= i && p[end] == '/')
    ensures end != -1 && matchedSlash ==> end < i
  {
    if i < 1 then -1
    else if p[i] == '/' then
      if !matchedSlash then i else DirnameEnd(p, i - 1, true)
    else DirnameEnd(p, i - 1, false)
  }

  /** Node's `path.posix.dirname(p)`. */
  function Dirname(p: string): (r: string)
    ensures r != ""
    ensures r == "." || r == "/" || r == "//" || (|r| < |p| && r == p[..|r|] && p[|r|] == '/')
    ensures r == "//" ==> |p| > 2 && p[..2] == "//"
  {
    if |p| == 0 then "."
    else
      var end := DirnameEnd(p, |p| - 1, true);
      if end == -1 then (if p[0] == '/' then "/" else ".")
      else if p[0] == '/' && end == 1 then "//"
      else p[..end]
  }

  /** The two directories every process sees: the working directory and the file-system root. */
  predicate IsRoot(p: string) {
    p == "." || p == "/"
  }

  /** A measure that `Dirname` strictly decreases on every path except the roots. */
  function Rank(p: string): nat {
    if IsRoot(p) then 0 else |p| + 1
  }

  lemma DirnameDecreasesRank(p: string)
    requires !IsRoot(p)
    ensures Rank(Dirname(p)) < Rank(p)
  {
  }

  lemma DirnameOfRoot(p: string)
    requires IsRoot(p)
    ensures Dirname(p) == p
  {
  }

  /**
   * A path followed by its successive `Dirname`s, ending at the first root
   * met: the directory itself and all of its ancestors.
   */
  function Ancestry(p: string): (r: seq<string>)
    decreases Rank(p)
    ensures |r| > 0 && r[0] == p && IsRoot(r[|r| - 1])
    ensures forall i :: 0 < i < |r| ==> r[i] == Dirname(r[i - 1])
  {
    if IsRoot(p) then [p]
    else
      DirnameDecreasesRank(p);
      [p] + Ancestry(Dirname(p))
  }

  /** No ancestor of `p` ranks above `p`; only `p` itself ranks as high. */
  lemma {:induction false} AncestryRank(p: string, a: string)
    requires a in Ancestry(p)
    decreases Rank(p)
    ensures Rank(a) <= Rank(p)
    ensures a != p ==> Rank(a) < Rank(p)
  {
    if !IsRoot(p) && a != p {
      DirnameDecreasesRank(p);
      AncestryRank(Dirname(p), a);
    }
  }

  /** A path longer than `t` that is not a root is never among `t` and its ancestors. */
  lemma NotAnAncestor(t: string, p: string)
    requires !IsRoot(p) && |p| > |t|
    ensures p !in Ancestry(t)
  {
    if p in Ancestry(t) {
      AncestryRank(t, p);
    }
  }

  lemma DirnameExamples()
    ensures Dirname("a/b/c.jpg") == "a/b"
    ensures Dirname("a/b/") == "a"
    ensures Dirname("a") == "."
    ensures Dirname("/a") == "/"
    ensures Dirname("") == "."
  {
    assert DirnameEnd("a/b/c.jpg", 8, true) == 3;
    assert DirnameEnd("a/b/", 3, true) == 1;
    assert DirnameEnd("a", 0, true) == -1;
    assert DirnameEnd("/a", 1, true) == -1;
  }
}
