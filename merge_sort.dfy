/**
 * `mergeSortIterators`: a recursive merge sort over the half-open range
 * [lo, hi) of an array. Elements are ordered by an integer key, which the
 * sort takes as a parameter; the merge takes the head of the first half only when its key
 * is strictly greater, so the result is non-increasing and equal keys from
 * the second half come out first.
 */
module MergeSort {

  import Iterators
  import Entities

  /** Every key in s is at most k. */
  ghost predicate KeysAtMost<T>(s: seq<T>, k: int, key: T -> int)
  {
    forall i :: 0 <= i < |s| ==> key(s[i]) <= k
  }

  /** s is in non-increasing key order. */
  ghost predicate NonIncreasing<T>(s: seq<T>, key: T -> int)
  {
    forall i, j :: 0 <= i < j < |s| ==> key(s[i]) >= key(s[j])
  }

  /**
   * The merge loop and the two leftover loops: the first head is taken
   * when its key is strictly greater, otherwise the second head is.
   */
  function Merge<T>(l: seq<T>, r: seq<T>, key: T -> int): (m: seq<T>)
    ensures |m| == |l| + |r|
    decreases |l| + |r|
  {
    if l == [] then r
    else if r == [] then l
    else if key(l[0]) > key(r[0]) then [l[0]] + Merge(l[1..], r, key)
    else [r[0]] + Merge(l, r[1..], key)
  }

  /** The whole sort: split after floor(n/2) elements, sort the halves, merge. */
  function MergeSorted<T>(s: seq<T>, key: T -> int): (r: seq<T>)
    ensures |r| == |s|
    decreases |s|
  {
    if |s| <= 1 then s
    else Merge(MergeSorted(s[..|s| / 2], key), MergeSorted(s[|s| / 2..], key), key)
  }

  /** Merging neither adds, drops nor duplicates an element. */
  lemma {:induction false} MergePermutes<T>(l: seq<T>, r: seq<T>, key: T -> int)
    ensures multiset(Merge(l, r, key)) == multiset(l) + multiset(r)
    decreases |l| + |r|
  {
    if l == [] || r == [] {
    } else if key(l[0]) > key(r[0]) {
      MergePermutes(l[1..], r, key);
      MergeTakesFirst(l, r, key);
      ConsPermutes(l[0], Merge(l[1..], r, key), l[1..], r);
      assert l == [l[0]] + l[1..];
    } else {
      MergePermutes(l, r[1..], key);
      MergeTakesSecond(l, r, key);
      ConsPermutes(r[0], Merge(l, r[1..], key), r[1..], l);
      assert r == [r[0]] + r[1..];
    }
  }

  /** Putting x in front of m adds x to m's multiset. */
  lemma ConsPermutes<T>(x: T, m: seq<T>, t: seq<T>, u: seq<T>)
    requires multiset(m) == multiset(t) + multiset(u)
    ensures multiset([x] + m) == multiset([x] + t) + multiset(u)
  {
    calc {
      multiset([x] + m);
      multiset([x]) + multiset(m);
      multiset([x]) + multiset(t) + multiset(u);
      multiset([x] + t) + multiset(u);
    }
  }

  /** The sort's result is a permutation of its input, for every input length. */
  lemma {:induction false} MergeSortedPermutes<T>(s: seq<T>, key: T -> int)
    ensures multiset(MergeSorted(s, key)) == multiset(s)
    decreases |s|
  {
    if |s| > 1 {
      var h := |s| / 2;
      var s1, s2 := s[..h], s[h..];
      assert s == s1 + s2;
      MergeSortedPermutes(s1, key);
      MergeSortedPermutes(s2, key);
      var l, r := MergeSorted(s1, key), MergeSorted(s2, key);
      MergePermutes(l, r, key);
      calc {
        multiset(MergeSorted(s, key));
        multiset(Merge(l, r, key));
        multiset(l) + multiset(r);
        multiset(s1) + multiset(s2);
        multiset(s);
      }
    }
  }

  /** The first head goes first exactly when its key is strictly greater. */
  lemma MergeTakesFirst<T>(l: seq<T>, r: seq<T>, key: T -> int)
    requires l != [] && r != [] && key(l[0]) > key(r[0])
    ensures Merge(l, r, key) == [l[0]] + Merge(l[1..], r, key)
  {
  }

  /** Otherwise, and in particular when the two heads have equal keys, the second head goes first. */
  lemma MergeTakesSecond<T>(l: seq<T>, r: seq<T>, key: T -> int)
    requires l != [] && r != [] && !(key(l[0]) > key(r[0]))
    ensures Merge(l, r, key) == [r[0]] + Merge(l, r[1..], key)
  {
  }

  /** Ranges of length at most one are left as they are. */
  lemma MergeSortedShortUnchanged<T>(s: seq<T>, key: T -> int)
    requires |s| <= 1
    ensures MergeSorted(s, key) == s
  {
  }

  lemma {:induction false} MergeKeysAtMost<T>(l: seq<T>, r: seq<T>, k: int, key: T -> int)
    requires KeysAtMost(l, k, key) && KeysAtMost(r, k, key)
    ensures KeysAtMost(Merge(l, r, key), k, key)
    decreases |l| + |r|
  {
    if l == [] || r == [] {
    } else if key(l[0]) > key(r[0]) {
      MergeKeysAtMost(l[1..], r, k, key);
    } else {
      MergeKeysAtMost(l, r[1..], k, key);
    }
  }

  /** Merging two non-increasing sequences gives a non-increasing sequence. */
  lemma {:induction false} MergeNonIncreasing<T>(l: seq<T>, r: seq<T>, key: T -> int)
    requires NonIncreasing(l, key) && NonIncreasing(r, key)
    ensures NonIncreasing(Merge(l, r, key), key)
    decreases |l| + |r|
  {
    if l == [] || r == [] {
    } else if key(l[0]) > key(r[0]) {
      MergeNonIncreasing(l[1..], r, key);
      MergeKeysAtMost(l[1..], r, key(l[0]), key);
      HeadThenNonIncreasing(l[0], Merge(l[1..], r, key), key);
    } else {
      MergeNonIncreasing(l, r[1..], key);
      MergeKeysAtMost(l, r[1..], key(r[0]), key);
      HeadThenNonIncreasing(r[0], Merge(l, r[1..], key), key);
    }
  }

  lemma HeadThenNonIncreasing<T>(x: T, s: seq<T>, key: T -> int)
    requires NonIncreasing(s, key) && KeysAtMost(s, key(x), key)
    ensures NonIncreasing([x] + s, key)
  {
    var t := [x] + s;
    forall i, j | 0 <= i < j < |t| ensures key(t[i]) >= key(t[j]) {
      if i > 0 {
        assert t[i] == s[i - 1] && t[j] == s[j - 1];
      } else {
        assert t[j] == s[j - 1];
      }
    }
  }

  /** The sort's result is in non-increasing key order. */
  lemma {:induction false} MergeSortedNonIncreasing<T>(s: seq<T>, key: T -> int)
    ensures NonIncreasing(MergeSorted(s, key), key)
    decreases |s|
  {
    if |s| > 1 {
      MergeSortedNonIncreasing(s[..|s| / 2], key);
      MergeSortedNonIncreasing(s[|s| / 2..], key);
      MergeNonIncreasing(MergeSorted(s[..|s| / 2], key), MergeSorted(s[|s| / 2..], key), key);
    }
  }

  /** When every key of l exceeds every key of r, merging just concatenates. */
  lemma {:induction false} MergeSeparated<T>(l: seq<T>, r: seq<T>, key: T -> int)
    requires forall i, j :: 0 <= i < |l| && 0 <= j < |r| ==> key(l[i]) > key(r[j])
    ensures Merge(l, r, key) == l + r
    decreases |l|
  {
    if l != [] && r != [] {
      MergeSeparated(l[1..], r, key);
      assert l == [l[0]] + l[1..];
    }
  }

  ghost predicate StrictlyDecreasing<T>(s: seq<T>, key: T -> int)
  {
    forall i, j :: 0 <= i < j < |s| ==> key(s[i]) > key(s[j])
  }

  /** Sorting a sequence whose keys are strictly decreasing leaves it exactly as it is. */
  lemma {:induction false} MergeSortedStrictlyDecreasingFixed<T>(s: seq<T>, key: T -> int)
    requires StrictlyDecreasing(s, key)
    ensures MergeSorted(s, key) == s
    decreases |s|
  {
    if |s| > 1 {
      var h := |s| / 2;
      var l, r := s[..h], s[h..];
      assert l + r == s;
      assert StrictlyDecreasing(l, key);
      assert StrictlyDecreasing(r, key) by {
        forall i, j | 0 <= i < j < |r| ensures key(r[i]) > key(r[j]) {
          assert r[i] == s[h + i] && r[j] == s[h + j];
        }
      }
      MergeSortedStrictlyDecreasingFixed(l, key);
      MergeSortedStrictlyDecreasingFixed(r, key);
      forall i, j | 0 <= i < |l| && 0 <= j < |r| ensures key(l[i]) > key(r[j]) {
        assert l[i] == s[i] && r[j] == s[h + j];
      }
      MergeSeparated(l, r, key);
    }
  }

  /** Every key of l is at least every key of r. */
  ghost predicate KeysAbove<T>(l: seq<T>, r: seq<T>, key: T -> int)
  {
    forall i, j :: 0 <= i < |l| && 0 <= j < |r| ==> key(l[i]) >= key(r[j])
  }

  /**
   * Merging two non-increasing sequences, the first entirely at or above the
   * second, gives the keys of their concatenation, position by position.
   */
  lemma {:induction false} MergeKeepsKeys<T>(l: seq<T>, r: seq<T>, key: T -> int)
    requires NonIncreasing(l, key) && NonIncreasing(r, key) && KeysAbove(l, r, key)
    ensures forall k :: 0 <= k < |l| + |r| ==> key(Merge(l, r, key)[k]) == key((l + r)[k])
    decreases |l| + |r|
  {
    if l == [] {
      assert l + r == r;
    } else if r == [] {
      assert l + r == l;
    } else if key(l[0]) > key(r[0]) {
      var l' := l[1..];
      MergeKeepsKeys(l', r, key);
      var m := Merge(l', r, key);
      forall k | 0 <= k < |l| + |r| ensures key(Merge(l, r, key)[k]) == key((l + r)[k]) {
        if k > 0 {
          assert Merge(l, r, key)[k] == m[k - 1];
          assert (l + r)[k] == (l' + r)[k - 1];
        }
      }
    } else {
      var r' := r[1..];
      MergeKeepsKeys(l, r', key);
      var m := Merge(l, r', key);
      var c := key(l[0]);
      assert key(r[0]) == c;
      forall k | 0 <= k < |l| + |r| ensures key(Merge(l, r, key)[k]) == key((l + r)[k]) {
        if k > 0 {
          assert Merge(l, r, key)[k] == m[k - 1];
          if k < |l| {
            assert (l + r')[k - 1] == l[k - 1] && (l + r)[k] == l[k];
            assert key(l[k - 1]) >= key(l[k]) >= key(r[0]) == c >= key(l[k - 1]);
          } else if k == |l| {
            assert (l + r')[k - 1] == l[k - 1] && (l + r)[k] == r[0];
            assert c >= key(l[k - 1]) >= key(r[0]) == c;
          } else {
            assert (l + r')[k - 1] == r'[k - 1 - |l|] == r[k - |l|] == (l + r)[k];
          }
        }
      }
    }
  }

  /**
   * Sorting an input that is already non-increasing keeps its keys position
   * by position; only elements with equal keys may change places.
   */
  lemma {:induction false} MergeSortedKeepsSortedKeys<T>(s: seq<T>, key: T -> int)
    requires NonIncreasing(s, key)
    ensures forall k :: 0 <= k < |s| ==> key(MergeSorted(s, key)[k]) == key(s[k])
    decreases |s|
  {
    if |s| > 1 {
      var h := |s| / 2;
      var l, r := s[..h], s[h..];
      assert s == l + r;
      assert NonIncreasing(l, key);
      assert NonIncreasing(r, key) by {
        forall i, j | 0 <= i < j < |r| ensures key(r[i]) >= key(r[j]) {
          assert r[i] == s[h + i] && r[j] == s[h + j];
        }
      }
      MergeSortedKeepsSortedKeys(l, key);
      MergeSortedKeepsSortedKeys(r, key);
      var ml, mr := MergeSorted(l, key), MergeSorted(r, key);
      MergeSortedNonIncreasing(l, key);
      MergeSortedNonIncreasing(r, key);
      assert KeysAbove(ml, mr, key) by {
        forall i, j | 0 <= i < |ml| && 0 <= j < |mr| ensures key(ml[i]) >= key(mr[j]) {
          assert l[i] == s[i] && r[j] == s[h + j];
        }
      }
      MergeKeepsKeys(ml, mr, key);
      forall k | 0 <= k < |s| ensures key(MergeSorted(s, key)[k]) == key(s[k]) {
        if k < h {
          assert (ml + mr)[k] == ml[k];
        } else {
          assert (ml + mr)[k] == mr[k - h] && s[k] == r[k - h];
        }
      }
    }
  }

  /** An input already in non-increasing order is not always left as it is: two equal keys swap. */
  lemma SortedTieNotFixed()
    ensures NonIncreasing([(0, 4), (1, 4)], (p: (int, int)) => p.1)
    ensures MergeSorted([(0, 4), (1, 4)], (p: (int, int)) => p.1) == [(1, 4), (0, 4)]
  {
    var key := (p: (int, int)) => p.1;
    var s := [(0, 4), (1, 4)];
    assert s[..1] == [(0, 4)] && s[1..] == [(1, 4)];
    assert Merge([(0, 4)], [(1, 4)], key) == [(1, 4)] + Merge([(0, 4)], [], key);
  }

  /**
   * For Things ordered by their criteria, the merge's test is `operator<=>`:
   * the first head goes first exactly when it compares Greater.
   */
  lemma ThingsMergeByCompare(l: seq<Entities.Thing>, r: seq<Entities.Thing>)
    requires l != [] && r != []
    ensures Entities.Compare(l[0], r[0]) == Entities.Greater ==>
              Merge(l, r, Entities.Criteria) == [l[0]] + Merge(l[1..], r, Entities.Criteria)
    ensures Entities.Compare(l[0], r[0]) != Entities.Greater ==>
              Merge(l, r, Entities.Criteria) == [r[0]] + Merge(l, r[1..], Entities.Criteria)
  {
  }

  /** Sorted by their criteria, no Thing compares Less than a Thing after it. */
  lemma ThingsSortedByCompare(s: seq<Entities.Thing>)
    ensures forall i, j :: 0 <= i < j < |s| ==>
              Entities.Compare(MergeSorted(s, Entities.Criteria)[i], MergeSorted(s, Entities.Criteria)[j]) != Entities.Less
  {
    MergeSortedNonIncreasing(s, Entities.Criteria);
  }

  /** Two elements with equal keys: B is after A in the input yet before it in the output. */
  lemma TieBreakSwapsEqualKeys()
    ensures MergeSorted([(0, 8), (1, 4), (2, 4), (3, 12)], (p: (int, int)) => p.1)
            == [(3, 12), (0, 8), (2, 4), (1, 4)]
  {
    var key := (p: (int, int)) => p.1;
    assert MergeSorted([(0, 8), (1, 4)], key) == [(0, 8), (1, 4)] by {
      assert [(0, 8), (1, 4)][..1] == [(0, 8)];
      assert [(0, 8), (1, 4)][1..] == [(1, 4)];
      assert Merge([(0, 8)], [(1, 4)], key) == [(0, 8)] + Merge([], [(1, 4)], key);
    }
    assert MergeSorted([(2, 4), (3, 12)], key) == [(3, 12), (2, 4)] by {
      assert [(2, 4), (3, 12)][..1] == [(2, 4)];
      assert [(2, 4), (3, 12)][1..] == [(3, 12)];
      assert Merge([(2, 4)], [(3, 12)], key) == [(3, 12)] + Merge([(2, 4)], [], key);
    }
    var s := [(0, 8), (1, 4), (2, 4), (3, 12)];
    assert s[..2] == [(0, 8), (1, 4)];
    assert s[2..] == [(2, 4), (3, 12)];
    var l, r := [(0, 8), (1, 4)], [(3, 12), (2, 4)];
    assert Merge(l, r, key) == [(3, 12)] + Merge(l, [(2, 4)], key);
    assert Merge(l, [(2, 4)], key) == [(0, 8)] + Merge([(1, 4)], [(2, 4)], key);
    assert Merge([(1, 4)], [(2, 4)], key) == [(2, 4)] + Merge([(1, 4)], [], key);
  }

  /**
   * `mergeSortIterators(begin, end)` on positions lo..hi of `a`. The range
   * becomes the sort of its old contents and nothing outside it is written.
   */
  method SortRange<T>(a: array<T>, lo: int, hi: int, key: T -> int)
    requires 0 <= lo <= hi <= a.Length
    modifies a
    ensures a[lo..hi] == MergeSorted(old(a[lo..hi]), key)
    ensures NonIncreasing(a[lo..hi], key) && multiset(a[lo..hi]) == multiset(old(a[lo..hi]))
    ensures a[..lo] == old(a[..lo]) && a[hi..] == old(a[hi..])
    decreases hi - lo
  {
    ghost var a0 := a[..];
    var len := Iterators.CountSteps(lo, hi);
    if len <= 1 {
      MergeSortedShortUnchanged(a[lo..hi], key);
      MergeSortedNonIncreasing(a[lo..hi], key);
      return;
    }
    var mid := Iterators.StepForward(lo, len / 2);

    ghost var s := a0[lo..hi];
    SortRange(a, lo, mid, key);
    ghost var a1 := a[..];
    SortRange(a, mid, hi, key);
    ghost var a2 := a[..];
    Iterators.PrefixAgreement(a2, a1, lo, mid);
    Iterators.SuffixAgreement(a1, a0, mid, hi);
    SliceHalves(a0, lo, mid, hi);
    SortedHalvesMerge(s, a2[lo..mid], a2[mid..hi], key);
    var buf := MergeHalves(a, lo, mid, hi, key);
    assert buf == MergeSorted(s, key) && lo + |buf| == hi;
    Iterators.CopyInto(a, lo, hi, buf);
    ghost var a3 := a[..];
    MergeSortedNonIncreasing(s, key);
    MergeSortedPermutes(s, key);
    assert a3[..lo] == a2[..lo] == a1[..lo] == a0[..lo];
    assert a3[hi..] == a2[hi..] == a1[hi..] == a0[hi..];
  }

  /** The two recursive calls and the merge together sort the whole range. */
  lemma SortedHalvesMerge<T>(s: seq<T>, l: seq<T>, r: seq<T>, key: T -> int)
    requires |s| > 1
    requires l == MergeSorted(s[..|s| / 2], key) && r == MergeSorted(s[|s| / 2..], key)
    ensures Merge(l, r, key) == MergeSorted(s, key)
  {
  }

  /** The halves of the range are the halves MergeSorted splits its input into. */
  lemma SliceHalves<T>(a0: seq<T>, lo: int, mid: int, hi: int)
    requires 0 <= lo <= hi <= |a0| && mid == lo + (hi - lo) / 2
    ensures a0[lo..hi][..(hi - lo) / 2] == a0[lo..mid]
    ensures a0[lo..hi][(hi - lo) / 2..] == a0[mid..hi]
  {
  }

  /**
   * The merge phase: the merge loop with strict `>`, then the leftovers of
   * the first half, then those of the second, pushed into a scratch vector.
   */
  method MergeHalves<T>(a: array<T>, lo: int, mid: int, hi: int, key: T -> int) returns (buf: seq<T>)
    requires 0 <= lo <= mid <= hi <= a.Length
    ensures buf == Merge(a[lo..mid], a[mid..hi], key)
  {
    ghost var s := a[..];
    ghost var merged := Merge(s[lo..mid], s[mid..hi], key);
    buf := [];
    var f, g := lo, mid;
    while f != mid && g != hi
      invariant lo <= f <= mid <= g <= hi
      invariant buf + Merge(s[f..mid], s[g..hi], key) == merged
      decreases (mid - f) + (hi - g)
    {
      buf, f, g := MergeStep(a, s, buf, f, mid, g, hi, key, merged);
    }
    MergeWithEmpty(s[f..mid], s[g..hi], key);
    ghost var b0 := buf;
    buf := AppendRest(a, f, mid, buf);
    buf := AppendRest(a, g, hi, buf);
    AppendAssociates(b0, a[f..mid], a[g..hi]);
  }

  /** Once one half is used up, the merge is the rest of the first half then the rest of the second. */
  lemma MergeWithEmpty<T>(l: seq<T>, r: seq<T>, key: T -> int)
    requires l == [] || r == []
    ensures Merge(l, r, key) == l + r
  {
    if l == [] {
      assert l + r == r;
    } else {
      assert l + r == l;
    }
  }

  /** One pass of the merge loop: the greater head, the second one on a tie, moves to the scratch vector. */
  method MergeStep<T>(a: array<T>, ghost s: seq<T>, buf: seq<T>, f: int, mid: int, g: int, hi: int,
                      key: T -> int, ghost merged: seq<T>)
    returns (buf': seq<T>, f': int, g': int)
    requires s == a[..] && 0 <= f < mid <= g < hi <= a.Length
    requires buf + Merge(s[f..mid], s[g..hi], key) == merged
    ensures f <= f' <= mid && g <= g' <= hi && f' + g' == f + g + 1
    ensures buf' + Merge(s[f'..mid], s[g'..hi], key) == merged
  {
    if key(a[f]) > key(a[g]) {
      LoopTakesFirst(buf, s, f, mid, g, hi, key, merged);
      buf', f', g' := buf + [a[f]], f + 1, g;
    } else {
      LoopTakesSecond(buf, s, f, mid, g, hi, key, merged);
      buf', f', g' := buf + [a[g]], f, g + 1;
    }
  }

  /** The merge loop's invariant survives a step that takes the first head. */
  lemma LoopTakesFirst<T>(buf: seq<T>, s: seq<T>, f: int, mid: int, g: int, hi: int, key: T -> int, merged: seq<T>)
    requires 0 <= f < mid <= g < hi <= |s| && key(s[f]) > key(s[g])
    requires buf + Merge(s[f..mid], s[g..hi], key) == merged
    ensures (buf + [s[f]]) + Merge(s[f + 1..mid], s[g..hi], key) == merged
  {
    var x := s[f..mid];
    assert x[0] == s[f] && x[1..] == s[f + 1..mid];
    MergeTakesFirst(x, s[g..hi], key);
    AppendAssociates(buf, [s[f]], Merge(s[f + 1..mid], s[g..hi], key));
  }

  /** The merge loop's invariant survives a step that takes the second head. */
  lemma LoopTakesSecond<T>(buf: seq<T>, s: seq<T>, f: int, mid: int, g: int, hi: int, key: T -> int, merged: seq<T>)
    requires 0 <= f < mid <= g < hi <= |s| && !(key(s[f]) > key(s[g]))
    requires buf + Merge(s[f..mid], s[g..hi], key) == merged
    ensures (buf + [s[g]]) + Merge(s[f..mid], s[g + 1..hi], key) == merged
  {
    var y := s[g..hi];
    assert y[0] == s[g] && y[1..] == s[g + 1..hi];
    MergeTakesSecond(s[f..mid], y, key);
    AppendAssociates(buf, [s[g]], Merge(s[f..mid], s[g + 1..hi], key));
  }

  lemma AppendAssociates<X>(xs: seq<X>, ys: seq<X>, zs: seq<X>)
    ensures xs + (ys + zs) == (xs + ys) + zs
  {
  }

  /** A leftover loop: push the rest of one half, lo..hi, after what is already in buf. */
  method AppendRest<T>(a: array<T>, lo: int, hi: int, buf: seq<T>) returns (out: seq<T>)
    requires 0 <= lo <= hi <= a.Length
    ensures out == buf + a[lo..hi]
  {
    out := buf;
    var f := lo;
    while f != hi
      invariant lo <= f <= hi
      invariant out == buf + a[lo..f]
    {
      assert a[lo..f + 1] == a[lo..f] + [a[f]];
      out := out + [a[f]];
      f := f + 1;
    }
  }
}
