/**
 * `shuffle`: five times as many swaps as the range is long, each exchanging
 * two positions drawn from `rand()`. The generator is not modelled; it is an
 * oracle `rand` whose k-th value is the k-th number `rand()` returns after
 * seeding. Step i takes draws 2i (first position) and 2i+1 (second).
 */
module Shuffle {

  import Iterators

  /** The constant `scale_factor`: swaps per element of the range. */
  const ScaleFactor: nat := 5

  /** s with the elements at positions i and j exchanged (one `tmp` swap). */
  function SwapAt<T>(s: seq<T>, i: int, j: int): (r: seq<T>)
    requires 0 <= i < |s| && 0 <= j < |s|
    ensures |r| == |s|
  {
    seq(|s|, k requires 0 <= k < |s| => if k == i then s[j] else if k == j then s[i] else s[k])
  }

  /** The swap exchanges the two cells and leaves every other position alone. */
  lemma SwapExchanges<T>(s: seq<T>, i: int, j: int)
    requires 0 <= i < |s| && 0 <= j < |s|
    ensures SwapAt(s, i, j)[i] == s[j] && SwapAt(s, i, j)[j] == s[i]
    ensures forall k :: 0 <= k < |s| && k != i && k != j ==> SwapAt(s, i, j)[k] == s[k]
  {
  }

  /** The first position of swap number step. */
  function FirstPos(rand: nat -> nat, step: nat, length: nat): (p: nat)
    requires length > 0
    ensures p < length
  {
    rand(2 * step) % length
  }

  /** The second position of swap number step. */
  function SecondPos(rand: nat -> nat, step: nat, length: nat): (p: nat)
    requires length > 0
    ensures p < length
  {
    rand(2 * step + 1) % length
  }

  /** The range after the first n swap steps. */
  function Steps<T>(s: seq<T>, rand: nat -> nat, n: nat): (r: seq<T>)
    ensures |r| == |s|
  {
    if n == 0 || |s| == 0 then s
    else SwapAt(Steps(s, rand, n - 1), FirstPos(rand, n - 1, |s|), SecondPos(rand, n - 1, |s|))
  }

  /** The whole shuffle: `length * scale_factor` swap steps. */
  function Shuffled<T>(s: seq<T>, rand: nat -> nat): (r: seq<T>)
    ensures |r| == |s|
  {
    Steps(s, rand, |s| * ScaleFactor)
  }

  /** A swap neither adds, drops nor duplicates an element. */
  lemma SwapPermutes<T>(s: seq<T>, i: int, j: int)
    requires 0 <= i < |s| && 0 <= j < |s|
    ensures multiset(SwapAt(s, i, j)) == multiset(s)
  {
    var t := s[i := s[j]];
    assert SwapAt(s, i, j) == t[j := s[i]];
    assert multiset(t) == multiset(s) - multiset{s[i]} + multiset{s[j]};
    assert multiset(t[j := s[i]]) == multiset(t) - multiset{t[j]} + multiset{s[i]};
  }

  /** Any number of swap steps keeps the multiset of the range. */
  lemma {:induction false} StepsPermute<T>(s: seq<T>, rand: nat -> nat, n: nat)
    ensures multiset(Steps(s, rand, n)) == multiset(s)
  {
    if n > 0 && |s| > 0 {
      StepsPermute(s, rand, n - 1);
      SwapPermutes(Steps(s, rand, n - 1), FirstPos(rand, n - 1, |s|), SecondPos(rand, n - 1, |s|));
    }
  }

  /** The shuffle is a permutation of the range. */
  lemma ShuffledPermutes<T>(s: seq<T>, rand: nat -> nat)
    ensures multiset(Shuffled(s, rand)) == multiset(s)
  {
    StepsPermute(s, rand, |s| * ScaleFactor);
  }

  /** On an empty range there are zero swap steps, whatever the oracle. */
  lemma ShuffledEmpty<T>(s: seq<T>, rand: nat -> nat)
    requires |s| == 0
    ensures Shuffled(s, rand) == s
  {
  }

  /** Every step of the first n picks the same position twice: each swap is a no-op. */
  ghost predicate OnlySelfSwaps(rand: nat -> nat, n: nat, length: nat)
    requires length > 0
  {
    forall step: nat :: step < n ==> FirstPos(rand, step, length) == SecondPos(rand, step, length)
  }

  /** When every draw pair names one position twice, the range is left as it was. */
  lemma {:induction false} SelfSwapsChangeNothing<T>(s: seq<T>, rand: nat -> nat, n: nat)
    requires |s| > 0 && OnlySelfSwaps(rand, n, |s|)
    ensures Steps(s, rand, n) == s
  {
    if n > 0 {
      assert OnlySelfSwaps(rand, n - 1, |s|);
      SelfSwapsChangeNothing(s, rand, n - 1);
      var p := FirstPos(rand, n - 1, |s|);
      assert SecondPos(rand, n - 1, |s|) == p;
      assert SwapAt(s, p, p) == s;
    }
  }

  /** A one-step shuffle of a two-element range that draws 0 then 1 exchanges the two elements. */
  lemma OneSwapExchanges<T>(x: T, y: T, rand: nat -> nat)
    requires rand(0) == 0 && rand(1) == 1
    ensures Steps([x, y], rand, 1) == [y, x]
  {
    assert FirstPos(rand, 0, 2) == 0 && SecondPos(rand, 0, 2) == 1;
    assert Steps([x, y], rand, 0) == [x, y];
  }

  /**
   * The inner stepping loop: p1 and p2 start at lo and take max(i, j) steps,
   * p1 moving while k < i and p2 while k < j.
   */
  method Locate(lo: int, i: nat, j: nat) returns (p1: int, p2: int)
    ensures p1 == lo + i && p2 == lo + j
  {
    p1, p2 := lo, lo;
    var bound := if i < j then j else i;
    var k := 0;
    while k < bound
      invariant 0 <= k <= bound
      invariant p1 == lo + (if k < i then k else i)
      invariant p2 == lo + (if k < j then k else j)
    {
      if k < i {
        p1 := p1 + 1;
      }
      if k < j {
        p2 := p2 + 1;
      }
      k := k + 1;
    }
  }

  /** The swap through a temporary: the cells at p1 and p2 exchange their values. */
  method SwapCells<T>(a: array<T>, p1: int, p2: int)
    requires 0 <= p1 < a.Length && 0 <= p2 < a.Length
    modifies a
    ensures a[..] == SwapAt(old(a[..]), p1, p2)
  {
    var tmp := a[p1];
    a[p1] := a[p2];
    a[p2] := tmp;
  }

  /** A swap at offsets i and j of the range lo..hi is a swap of the range and leaves the rest alone. */
  lemma SwapInsideRange<T>(x: seq<T>, lo: int, hi: int, i: int, j: int)
    requires 0 <= lo <= hi <= |x| && 0 <= i < hi - lo && 0 <= j < hi - lo
    ensures SwapAt(x, lo + i, lo + j)[lo..hi] == SwapAt(x[lo..hi], i, j)
    ensures SwapAt(x, lo + i, lo + j)[..lo] == x[..lo]
    ensures SwapAt(x, lo + i, lo + j)[hi..] == x[hi..]
  {
    var y := SwapAt(x, lo + i, lo + j);
    SwapExchanges(x, lo + i, lo + j);
    assert forall k :: 0 <= k < hi - lo ==> y[lo..hi][k] == y[lo + k] && x[lo..hi][k] == x[lo + k];
  }

  /** One pass of the swap loop: draw two offsets, step to them, swap. */
  method ShuffleStep<T>(a: array<T>, lo: int, hi: int, rand: nat -> nat, i: nat, ghost s: seq<T>)
    requires 0 <= lo < hi <= a.Length && |s| == hi - lo
    requires a[lo..hi] == Steps(s, rand, i)
    modifies a
    ensures a[lo..hi] == Steps(s, rand, i + 1)
    ensures a[..lo] == old(a[..lo]) && a[hi..] == old(a[hi..])
  {
    ghost var before := a[..];
    var length := hi - lo;
    var p1Pos := rand(2 * i) % length;
    var p2Pos := rand(2 * i + 1) % length;
    var p1, p2 := Locate(lo, p1Pos, p2Pos);
    SwapCells(a, p1, p2);
    SwapInsideRange(before, lo, hi, p1Pos, p2Pos);
    assert p1Pos == FirstPos(rand, i, |s|) && p2Pos == SecondPos(rand, i, |s|);
    assert Steps(s, rand, i + 1) == SwapAt(Steps(s, rand, i), p1Pos, p2Pos);
  }

  /**
   * `shuffle(begin, end)` on positions lo..hi of `a`: the range becomes its
   * shuffle under the oracle, a permutation of its old contents, and nothing
   * outside it is written. An empty range takes zero steps and draws nothing.
   */
  method ShuffleRange<T>(a: array<T>, lo: int, hi: int, rand: nat -> nat)
    requires 0 <= lo <= hi <= a.Length
    modifies a
    ensures a[lo..hi] == Shuffled(old(a[lo..hi]), rand)
    ensures multiset(a[lo..hi]) == multiset(old(a[lo..hi]))
    ensures a[..lo] == old(a[..lo]) && a[hi..] == old(a[hi..])
  {
    ghost var a0 := a[..];
    ghost var s := a0[lo..hi];
    var length := Iterators.CountSteps(lo, hi);
    var permutations := length * ScaleFactor;
    var i := 0;
    while i < permutations
      invariant 0 <= i <= permutations
      invariant |a[..]| == |a0|
      invariant a[lo..hi] == Steps(s, rand, i)
      invariant a[..lo] == a0[..lo] && a[hi..] == a0[hi..]
    {
      ShuffleStep(a, lo, hi, rand, i, s);
      i := i + 1;
    }
    assert i == |s| * ScaleFactor;
    ShuffledPermutes(s, rand);
  }
}
