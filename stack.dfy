/**
 * The `std::stack` the stack adapter drains and refills, with its contents
 * listed bottom to top (the top is the last element), and the reversal
 * `std::reverse` performs on the drained vector.
 */
module Stacks {

  /** s read back to front. */
  function Reversed<T>(s: seq<T>): (r: seq<T>)
    ensures |r| == |s|
  {
    seq(|s|, i requires 0 <= i < |s| => s[|s| - 1 - i])
  }

  /** Reversal undoes itself. */
  lemma ReversedTwice<T>(s: seq<T>)
    ensures Reversed(Reversed(s)) == s
  {
    var r := Reversed(Reversed(s));
    forall i | 0 <= i < |s| ensures r[i] == s[i] {
      assert Reversed(s)[|s| - 1 - i] == s[i];
    }
  }

  /** Reversing v followed by x puts x first. */
  lemma ReversedSnoc<T>(v: seq<T>, x: T)
    ensures Reversed(v + [x]) == [x] + Reversed(v)
  {
    var l, r := Reversed(v + [x]), [x] + Reversed(v);
    forall i | 0 <= i < |l| ensures l[i] == r[i] {
      if i > 0 {
        assert (v + [x])[|v| - i] == v[|v| - i];
      }
    }
  }

  /**
   * The order in which repeated pops hand out the elements: the top first,
   * then the pops of what is left under it.
   */
  function PopOrder<T>(elems: seq<T>): (r: seq<T>)
    ensures |r| == |elems|
    decreases |elems|
  {
    if elems == [] then []
    else [elems[|elems| - 1]] + PopOrder(elems[..|elems| - 1])
  }

  /** Popping everything yields the stack reversed, as the reversal of the drained vector undoes. */
  lemma {:induction false} PopOrderIsReversed<T>(elems: seq<T>)
    ensures PopOrder(elems) == Reversed(elems)
    decreases |elems|
  {
    if elems != [] {
      var rest, x := elems[..|elems| - 1], elems[|elems| - 1];
      PopOrderIsReversed(rest);
      assert elems == rest + [x];
      ReversedSnoc(rest, x);
    }
  }

  /** Reversing what the pops handed out gives the stack back, bottom to top. */
  lemma ReversedPopsRestore<T>(elems: seq<T>)
    ensures Reversed(PopOrder(elems)) == elems
  {
    PopOrderIsReversed(elems);
    ReversedTwice(elems);
  }

  /** The k-th pop hands out the element k places below the top. */
  lemma PopOrderPointwise<T>(elems: seq<T>)
    ensures forall k :: 0 <= k < |elems| ==> PopOrder(elems)[k] == elems[|elems| - 1 - k]
  {
    PopOrderIsReversed(elems);
  }

  /** A LIFO stack; `elems` lists it bottom to top. */
  class Stack<T> {
    var elems: seq<T>

    constructor ()
      ensures elems == []
    {
      elems := [];
    }

    method Push(x: T)
      modifies this
      ensures elems == old(elems) + [x]
    {
      elems := elems + [x];
    }

    /** `pop` on a non-empty stack removes the top. */
    method Pop()
      requires elems != []
      modifies this
      ensures elems == old(elems)[..|old(elems)| - 1]
    {
      elems := elems[..|elems| - 1];
    }

    method Top() returns (x: T)
      requires elems != []
      ensures x == elems[|elems| - 1]
    {
      x := elems[|elems| - 1];
    }

    method Empty() returns (b: bool)
      ensures b <==> elems == []
    {
      b := elems == [];
    }

    method Size() returns (n: nat)
      ensures n == |elems|
    {
      n := |elems|;
    }
  }

  /** A push followed by a pop hands back the pushed element and restores the stack. */
  method PushThenPop<T>(st: Stack<T>, x: T) returns (y: T)
    modifies st
    ensures y == x && st.elems == old(st.elems)
  {
    st.Push(x);
    y := st.Top();
    st.Pop();
  }
}
