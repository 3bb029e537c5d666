/** Option and Result, the failure-carrying values the rest of the model returns
    in place of Go's `(value, error)` pairs and nil pointers. */
module Wrappers {

  datatype Option<+T> = None | Some(value: T)

  /** `Ok(v)` is Go's `(v, nil)`; `Fail(e)` is Go's `(zero, e)`. */
  datatype Result<+T, +E> = Ok(value: T) | Fail(error: E)

  /** True when no two positions of `s` hold the same value. */
  predicate NoDups<T(==)>(s: seq<T>)
  {
    forall i, j :: 0 <= i < j < |s| ==> s[i] != s[j]
  }

  /** True when `a` can be obtained from `b` by deleting elements (order kept). */
  predicate IsSubsequence<T(==)>(a: seq<T>, b: seq<T>)
    decreases |b|
  {
    if |a| == 0 then true
    else if |b| == 0 then false
    else if a[0] == b[0] then IsSubsequence(a[1..], b[1..])
    else IsSubsequence(a, b[1..])
  }

  /** Skipping one more element of the longer sequence keeps a subsequence. */
  lemma SubsequenceOfTail<T>(a: seq<T>, s: seq<T>)
    requires |s| > 0 && IsSubsequence(a, s[1..])
    ensures IsSubsequence(a, s)
    decreases |a| + |s|
  {
    if |a| > 0 && a[0] == s[0] {
      SubsequenceDropHead(a, s[1..]);
    }
  }

  lemma SubsequenceDropHead<T>(a: seq<T>, s: seq<T>)
    requires |a| > 0 && IsSubsequence(a, s)
    ensures IsSubsequence(a[1..], s)
    decreases |a| + |s|
  {
    if a[0] != s[0] {
      SubsequenceDropHead(a, s[1..]);
    }
    SubsequenceOfTail(a[1..], s);
  }
}
