/**
 * The two pieces of the Python runtime that the controller's bookkeeping
 * depends on: slicing a list up to a stop index, and the POSIX
 * `os.path.basename`.
 */
module PyStd {

  /** `s[:k]` for a non-negative stop `k`: Python clamps the stop at the
      length instead of failing. */
  function Prefix<T>(s: seq<T>, k: nat): (r: seq<T>)
    ensures |r| == (if k < |s| then k else |s|)
    ensures r == s[..|r|]
  {
    if k < |s| then s[..k] else s
  }

  /** `os.path.basename(p)`: everything after the last '/'. The lemmas
      below state what it is; the contract only bounds it. */
  function Basename(p: string): (b: string)
    ensures |b| <= |p|
    ensures |p| > 0 && p[|p| - 1] == '/' ==> b == ""
    decreases |p|
  {
    if |p| == 0 || p[|p| - 1] == '/' then ""
    else Basename(p[..|p| - 1]) + [p[|p| - 1]]
  }

  /** `Basename(p)` is the last path component: a suffix of `p` with no
      '/' in it, that is all of `p` or follows a '/'. */
  lemma {:induction false} BasenameIsLastComponent(p: string)
    ensures var b := Basename(p);
            && '/' !in b
            && |b| <= |p| && b == p[|p| - |b|..]
            && (|b| < |p| ==> p[|p| - |b| - 1] == '/')
    decreases |p|
  {
    if |p| != 0 && p[|p| - 1] != '/' {
      BasenameIsLastComponent(p[..|p| - 1]);
    }
  }

  /** The three properties of `Basename` pin it down: the only slash-free
      suffix of `p` that is all of `p` or preceded by a '/'. */
  lemma {:induction false} BasenameUnique(p: string, b: string)
    requires '/' !in b
    requires |b| <= |p| && b == p[|p| - |b|..]
    requires |b| < |p| ==> p[|p| - |b| - 1] == '/'
    ensures b == Basename(p)
  {
    BasenameIsLastComponent(p);
  }
}
