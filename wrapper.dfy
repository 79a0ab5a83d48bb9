/**
 * `Wrapper<DataStruct>::apply_function` and its `Wrapper<stack<T>>`
 * specialisation: copy the container into a scratch vector, run a range
 * procedure over positions [from, to) of the vector, and put the vector back.
 * The procedures `main` hands over are `printPointers` (which changes no
 * element), `shuffle` and `mergeSortIterators`.
 */
module Wrapper {

  import CInt
  import Iterators
  import MergeSort
  import Shuffle
  import Stacks

  /** A procedure over an iterator range, identified by what it does to the elements. */
  datatype Procedure<!T> =
    | Identity                     // `printPointers`: only prints
    | Sort(key: T -> int)          // `mergeSortIterators`
    | Shuffle(rand: nat -> nat)    // `shuffle` under a `rand()` oracle

  /** What a procedure leaves in its range. */
  function Transform<T>(p: Procedure<T>, s: seq<T>): (r: seq<T>)
    ensures |r| == |s|
  {
    match p
    case Identity => s
    case Sort(key) => MergeSort.MergeSorted(s, key)
    case Shuffle(rand) => Shuffle.Shuffled(s, rand)
  }

  /** Every procedure only rearranges its range. */
  lemma TransformPermutes<T>(p: Procedure<T>, s: seq<T>)
    ensures multiset(Transform(p, s)) == multiset(s)
  {
    match p
    case Identity =>
    case Sort(key) => MergeSort.MergeSortedPermutes(s, key);
    case Shuffle(rand) => Shuffle.ShuffledPermutes(s, rand);
  }

  /** The call of the range procedure on positions lo..hi of a. */
  method RunProcedure<T>(p: Procedure<T>, a: array<T>, lo: int, hi: int)
    requires 0 <= lo <= hi <= a.Length
    modifies a
    ensures a[lo..hi] == Transform(p, old(a[lo..hi]))
    ensures a[..lo] == old(a[..lo]) && a[hi..] == old(a[hi..])
  {
    match p
    case Identity =>
    case Sort(key) => MergeSort.SortRange(a, lo, hi, key);
    case Shuffle(rand) => Shuffle.ShuffleRange(a, lo, hi, rand);
  }

  /** The default upper bound: INT_MAX stands for the size of the container. */
  function ResolveTo(to: int, size: nat): (t: int)
    ensures to == CInt.IntMax ==> t == size
    ensures to != CInt.IntMax ==> t == to
  {
    if to == CInt.IntMax then size else to
  }

  /**
   * The container after the general adapter: the procedure's result on
   * [from, t) lands at the FRONT of the container (the write-back starts at
   * the container's first position), and positions t - from and beyond keep their old values.
   */
  function GeneralApplied<T>(s: seq<T>, p: Procedure<T>, from: int, t: int): (r: seq<T>)
    requires 0 <= from <= t <= |s|
    ensures |r| == |s|
  {
    Transform(p, s[from..t]) + s[t - from..]
  }

  /**
   * Position by position: the first t - from positions hold the buffer after
   * the procedure, from its offset `from` on; every later position is untouched.
   */
  lemma GeneralAppliedPointwise<T>(s: seq<T>, p: Procedure<T>, from: int, t: int)
    requires 0 <= from <= t <= |s|
    ensures forall k :: 0 <= k < t - from ==> GeneralApplied(s, p, from, t)[k] == Transform(p, s[from..t])[k]
    ensures forall k :: t - from <= k < |s| ==> GeneralApplied(s, p, from, t)[k] == s[k]
  {
  }

  /** With from == 0 the adapter works in place: the procedure's result replaces the window. */
  lemma GeneralAppliedFromStart<T>(s: seq<T>, p: Procedure<T>, t: int)
    requires 0 <= t <= |s|
    ensures GeneralApplied(s, p, 0, t) == Transform(p, s[..t]) + s[t..]
  {
    assert s[0..t] == s[..t];
  }

  /** With the default bounds and a procedure that changes nothing, the container is unchanged. */
  lemma GeneralIdentityKeepsContainer<T>(s: seq<T>)
    ensures GeneralApplied(s, Identity, 0, ResolveTo(CInt.IntMax, |s|)) == s
  {
    assert s[0..|s|] == s;
  }

  /** The whole-container default call keeps the elements, only rearranged. */
  lemma GeneralDefaultPermutes<T>(s: seq<T>, p: Procedure<T>)
    ensures multiset(GeneralApplied(s, p, 0, ResolveTo(CInt.IntMax, |s|))) == multiset(s)
  {
    assert s[0..|s|] == s;
    TransformPermutes(p, s);
  }

  /** The write-back quirk: a window that does not start at 0 is copied to the front. */
  lemma GeneralWindowLandsAtFront<T>(x: T, y: T, z: T)
    ensures GeneralApplied([x, y, z], Identity, 1, 3) == [y, z, z]
  {
    assert [x, y, z][1..3] == [y, z];
    assert [x, y, z][2..] == [z];
  }

  /** The copy loop: every element of the container is appended to the scratch vector, in order. */
  method CopyOut<T>(data: array<T>) returns (v: seq<T>)
    ensures v == data[..]
  {
    v := [];
    var i := 0;
    while i != data.Length
      invariant 0 <= i <= data.Length
      invariant v == data[..i]
    {
      v := v + [data[i]];
      i := i + 1;
    }
  }

  /** A fresh vector holding v. */
  method ToVector<T>(v: seq<T>) returns (a: array<T>)
    ensures fresh(a) && a[..] == v
  {
    a := new T[|v|](i requires 0 <= i < |v| => v[i]);
  }

  /**
   * `Wrapper<DataStruct>::apply_function(data, f, from, to)` on a container
   * modelled as an array. The caller must give 0 <= from <= to <= size once
   * `to` is resolved, as the iterator arithmetic does.
   */
  method ApplyToContainer<T>(data: array<T>, p: Procedure<T>, from: int, to: int)
    requires 0 <= from <= ResolveTo(to, data.Length) <= data.Length
    modifies data
    ensures data[..] == GeneralApplied(old(data[..]), p, from, ResolveTo(to, data.Length))
  {
    var t := to;
    if t == CInt.IntMax {
      t := data.Length;
    }
    ghost var s := data[..];
    var copied := CopyOut(data);
    var buffer := ToVector(copied);
    assert buffer[from..t] == s[from..t];
    RunProcedure(p, buffer, from, t);
    ghost var w := buffer[from..t];
    assert w == Transform(p, s[from..t]);
    Iterators.CopyInto(data, 0, t - from, buffer[from..t]);
    assert data[..] == data[0..t - from] + data[t - from..];
  }

  /** The stack after the adapter: the window [from, t), counted from the bottom, replaced in place. */
  function StackApplied<T>(s: seq<T>, p: Procedure<T>, from: int, t: int): (r: seq<T>)
    requires 0 <= from <= t <= |s|
    ensures |r| == |s|
  {
    s[..from] + Transform(p, s[from..t]) + s[t..]
  }

  /** Position by position: outside the window nothing moves, inside it the procedure's result sits. */
  lemma StackAppliedPointwise<T>(s: seq<T>, p: Procedure<T>, from: int, t: int)
    requires 0 <= from <= t <= |s|
    ensures forall k :: 0 <= k < from ==> StackApplied(s, p, from, t)[k] == s[k]
    ensures forall k :: from <= k < t ==> StackApplied(s, p, from, t)[k] == Transform(p, s[from..t])[k - from]
    ensures forall k :: t <= k < |s| ==> StackApplied(s, p, from, t)[k] == s[k]
  {
  }

  /** The stack adapter keeps the multiset of the stack. */
  lemma StackAppliedPermutes<T>(s: seq<T>, p: Procedure<T>, from: int, t: int)
    requires 0 <= from <= t <= |s|
    ensures multiset(StackApplied(s, p, from, t)) == multiset(s)
  {
    TransformPermutes(p, s[from..t]);
    assert s == s[..from] + s[from..t] + s[t..];
  }

  /** With a procedure that changes nothing, the stack, and so its pop order, is restored exactly. */
  lemma StackIdentityRestores<T>(s: seq<T>, from: int, t: int)
    requires 0 <= from <= t <= |s|
    ensures StackApplied(s, Identity, from, t) == s
    ensures Stacks.PopOrder(StackApplied(s, Identity, from, t)) == Stacks.PopOrder(s)
  {
    IdentityWindowKeepsStack(s, from, t);
  }

  lemma IdentityWindowKeepsStack<T>(s: seq<T>, from: int, t: int)
    requires 0 <= from <= t <= |s|
    ensures StackApplied(s, Identity, from, t) == s
  {
    assert s == s[..from] + s[from..t] + s[t..];
  }

  /** s is in non-decreasing key order. */
  ghost predicate NonDecreasing<T>(s: seq<T>, key: T -> int)
  {
    forall i, j :: 0 <= i < j < |s| ==> key(s[i]) <= key(s[j])
  }

  /**
   * Sorting the whole stack puts the greatest key at the bottom, so popping
   * afterwards hands the elements out in non-decreasing key order.
   */
  lemma StackSortPopsAscending<T>(s: seq<T>, key: T -> int)
    ensures NonDecreasing(Stacks.PopOrder(StackApplied(s, Sort(key), 0, ResolveTo(CInt.IntMax, |s|))), key)
  {
    WholeStackApplied(s, Sort(key));
    MergeSort.MergeSortedNonIncreasing(s, key);
    ReversedNonIncreasing(MergeSort.MergeSorted(s, key), key);
  }

  /** Over the whole stack the adapter just replaces it by the procedure's result. */
  lemma WholeStackApplied<T>(s: seq<T>, p: Procedure<T>)
    ensures StackApplied(s, p, 0, ResolveTo(CInt.IntMax, |s|)) == Transform(p, s)
  {
    assert s[..0] == [] && s[0..|s|] == s && s[|s|..] == [];
  }

  /** Read back to front, a non-increasing sequence is non-decreasing. */
  lemma ReversedNonIncreasing<T>(r: seq<T>, key: T -> int)
    requires MergeSort.NonIncreasing(r, key)
    ensures NonDecreasing(Stacks.PopOrder(r), key)
  {
    var q := Stacks.PopOrder(r);
    Stacks.PopOrderPointwise(r);
    forall i, j | 0 <= i < j < |q| ensures key(q[i]) <= key(q[j]) {
      assert q[i] == r[|r| - 1 - i] && q[j] == r[|r| - 1 - j];
    }
  }

  /** The draining loop: pop everything, collecting the elements in the order the pops hand them out. */
  method Drain<T>(st: Stacks.Stack<T>) returns (popped: seq<T>)
    modifies st
    ensures st.elems == [] && popped == Stacks.PopOrder(old(st.elems))
  {
    popped := [];
    var empty := st.Empty();
    while !empty
      invariant empty <==> st.elems == []
      invariant popped + Stacks.PopOrder(st.elems) == Stacks.PopOrder(old(st.elems))
      decreases |st.elems|
    {
      var x := st.Top();
      ghost var rest := st.elems[..|st.elems| - 1];
      assert Stacks.PopOrder(st.elems) == [x] + Stacks.PopOrder(rest);
      st.Pop();
      popped := popped + [x];
      empty := st.Empty();
    }
  }

  /** The refilling loop: push the vector's elements first to last, so the last ends on top. */
  method Refill<T>(st: Stacks.Stack<T>, v: array<T>)
    requires st.elems == []
    modifies st
    ensures st.elems == v[..]
  {
    var i := 0;
    while i != v.Length
      invariant 0 <= i <= v.Length
      invariant st.elems == v[..i]
    {
      st.Push(v[i]);
      i := i + 1;
    }
  }

  /**
   * `Wrapper<stack<T>>::apply_function(data, f, from, to)`: drain the stack,
   * reverse to bottom-to-top order, run the procedure on [from, t), push
   * everything back.
   */
  method ApplyToStack<T>(st: Stacks.Stack<T>, p: Procedure<T>, from: int, to: int)
    requires 0 <= from <= ResolveTo(to, |st.elems|) <= |st.elems|
    modifies st
    ensures st.elems == StackApplied(old(st.elems), p, from, ResolveTo(to, |old(st.elems)|))
  {
    var t := to;
    if t == CInt.IntMax {
      t := st.Size();
    }
    ghost var s := st.elems;
    var popped := Drain(st);
    Stacks.ReversedPopsRestore(s);
    var buffer := ToVector(Stacks.Reversed(popped));
    assert buffer[..] == s;
    RunProcedure(p, buffer, from, t);
    assert buffer[..from] == s[..from] && buffer[t..] == s[t..];
    assert buffer[..] == buffer[..from] + buffer[from..t] + buffer[t..];
    Refill(st, buffer);
  }
}
