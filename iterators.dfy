/**
 * The traversal the generic algorithms rely on: a position is an index into
 * an array and the only moves are single steps forward, so lengths and
 * positions are found by counting steps, as the iterator loops do.
 */
module Iterators {

  /** The counting loop: the number of single steps from lo to hi. */
  method CountSteps(lo: int, hi: int) returns (n: int)
    requires lo <= hi
    ensures n == hi - lo
  {
    n := 0;
    var i := lo;
    while i != hi
      invariant lo <= i <= hi
      invariant n == i - lo
    {
      n := n + 1;
      i := i + 1;
    }
  }

  /** The stepping loop: the position n single steps after p. */
  method StepForward(p: int, n: int) returns (q: int)
    requires 0 <= n
    ensures q == p + n
  {
    q := p;
    var c := 0;
    while c < n
      invariant 0 <= c <= n
      invariant q == p + c
    {
      q := q + 1;
      c := c + 1;
    }
  }

  /** Agreement on a prefix carries over to every shorter prefix and every slice inside it. */
  lemma PrefixAgreement<T>(x: seq<T>, y: seq<T>, n: int, m: int)
    requires 0 <= n <= m <= |x| && m <= |y| && x[..m] == y[..m]
    ensures x[..n] == y[..n] && x[n..m] == y[n..m]
  {
    assert x[..n] == x[..m][..n] && y[..n] == y[..m][..n];
    assert x[n..m] == x[..m][n..] && y[n..m] == y[..m][n..];
  }

  /** Agreement on a suffix carries over to every shorter suffix and every slice inside it. */
  lemma SuffixAgreement<T>(x: seq<T>, y: seq<T>, m: int, n: int)
    requires 0 <= m <= n <= |x| && |x| == |y| && x[m..] == y[m..]
    ensures x[n..] == y[n..] && x[m..n] == y[m..n]
  {
    assert x[n..] == x[m..][n - m..] && y[n..] == y[m..][n - m..];
    assert x[m..n] == x[m..][..n - m] && y[m..n] == y[m..][..n - m];
  }

  /** The copy-back loop: buf overwrites positions lo..hi, one element per step. */
  method CopyInto<T>(a: array<T>, lo: int, hi: int, buf: seq<T>)
    requires 0 <= lo <= hi <= a.Length && hi - lo == |buf|
    modifies a
    ensures a[lo..hi] == buf
    ensures a[..lo] == old(a[..lo]) && a[hi..] == old(a[hi..])
  {
    var j := 0;
    var iter := lo;
    while j < |buf|
      invariant 0 <= j <= |buf| && iter == lo + j
      invariant forall k :: lo <= k < iter ==> a[k] == buf[k - lo]
      invariant forall k :: 0 <= k < a.Length && !(lo <= k < iter) ==> a[k] == old(a[k])
    {
      a[iter] := buf[j];
      j := j + 1;
      iter := iter + 1;
    }
    assert a[lo..hi] == buf;
  }
}
