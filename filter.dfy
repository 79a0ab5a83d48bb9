/**
 * `printVectorConditionally(v, f)` as a filter: instead of printing, it
 * yields the lines it would print, the elements satisfying the predicate in
 * index order, then the separator line. `womanPower` is the predicate `main`
 * passes it.
 */
module Filter {

  import Entities

  /** One printed line: an element's rendering, or the closing dashes. */
  datatype Line<T> = Entry(item: T) | Separator

  /** The elements of v satisfying f, in the order the index loop meets them. */
  function Kept<T>(v: seq<T>, f: T -> bool): (r: seq<T>)
    ensures |r| <= |v|
  {
    if v == [] then []
    else if f(v[|v| - 1]) then Kept(v[..|v| - 1], f) + [v[|v| - 1]]
    else Kept(v[..|v| - 1], f)
  }

  /** Each kept element as an entry line. */
  function Entries<T>(xs: seq<T>): (r: seq<Line<T>>)
    ensures |r| == |xs|
    ensures forall k :: 0 <= k < |xs| ==> r[k] == Entry(xs[k])
  {
    seq(|xs|, k requires 0 <= k < |xs| => Entry(xs[k]))
  }

  /**
   * Everything `printVectorConditionally` prints: one entry per kept element,
   * in order, and then exactly one separator.
   */
  function Printed<T>(v: seq<T>, f: T -> bool): (r: seq<Line<T>>)
    ensures |r| == |Kept(v, f)| + 1
    ensures r[|r| - 1] == Separator
    ensures forall k :: 0 <= k < |r| - 1 ==> r[k] == Entry(Kept(v, f)[k])
  {
    Entries(Kept(v, f)) + [Separator]
  }

  /** Filtering distributes over concatenation: the kept elements keep their relative order. */
  lemma {:induction false} KeptAppend<T>(a: seq<T>, b: seq<T>, f: T -> bool)
    ensures Kept(a + b, f) == Kept(a, f) + Kept(b, f)
    decreases |b|
  {
    if b == [] {
      assert a + b == a;
    } else {
      var b' := b[..|b| - 1];
      var x := b[|b| - 1];
      assert (a + b)[..|a + b| - 1] == a + b';
      assert (a + b)[|a + b| - 1] == x;
      KeptAppend(a, b', f);
    }
  }

  /** Only elements of v that satisfy f are printed. */
  lemma {:induction false} KeptSound<T>(v: seq<T>, f: T -> bool)
    ensures forall x :: x in Kept(v, f) ==> x in v && f(x)
  {
    if v != [] {
      KeptSound(v[..|v| - 1], f);
    }
  }

  /** Every element of v that satisfies f is printed. */
  lemma {:induction false} KeptComplete<T>(v: seq<T>, f: T -> bool)
    ensures forall i :: 0 <= i < |v| && f(v[i]) ==> v[i] in Kept(v, f)
  {
    if v != [] {
      KeptComplete(v[..|v| - 1], f);
      forall i | 0 <= i < |v| - 1 && f(v[i]) ensures v[i] in Kept(v, f) {
        assert v[..|v| - 1][i] == v[i];
      }
    }
  }

  /** One more index of the loop: the prefix of length i + 1 keeps what the prefix of length i kept, plus v[i] if it passes. */
  lemma KeptStep<T>(v: seq<T>, i: int, f: T -> bool)
    requires 0 <= i < |v|
    ensures Kept(v[..i + 1], f) == Kept(v[..i], f) + (if f(v[i]) then [v[i]] else [])
  {
    assert v[..i + 1][..i] == v[..i];
  }

  /** When nothing satisfies f, only the separator is printed. */
  lemma {:induction false} NothingKept<T>(v: seq<T>, f: T -> bool)
    requires forall i :: 0 <= i < |v| ==> !f(v[i])
    ensures Printed(v, f) == [Separator]
  {
    if v != [] {
      NothingKept(v[..|v| - 1], f);
    }
  }

  /** When everything satisfies f, every element is printed in order. */
  lemma {:induction false} EverythingKept<T>(v: seq<T>, f: T -> bool)
    requires forall i :: 0 <= i < |v| ==> f(v[i])
    ensures Kept(v, f) == v
  {
    if v != [] {
      EverythingKept(v[..|v| - 1], f);
      assert v[..|v| - 1] + [v[|v| - 1]] == v;
    }
  }

  /** The index loop of `printVectorConditionally`, collecting lines instead of printing them. */
  method PrintConditionally<T>(v: seq<T>, f: T -> bool) returns (out: seq<Line<T>>)
    ensures out == Printed(v, f)
  {
    ghost var kept: seq<T> := [];
    out := [];
    var i := 0;
    while i < |v|
      invariant 0 <= i <= |v|
      invariant kept == Kept(v[..i], f)
      invariant out == Entries(kept)
    {
      KeptStep(v, i, f);
      if f(v[i]) {
        out := out + [Entry(v[i])];
        kept := kept + [v[i]];
      }
      i := i + 1;
    }
    assert v[..i] == v;
    out := out + [Separator];
  }

  /** `womanPower` selects exactly the female persons, students and transformers. */
  lemma WomanPowerKeeps(v: seq<Entities.Thing>)
    ensures forall t :: t in Kept(v, Entities.WomanPower) ==>
              t in v && Entities.IsPersonLike(t) && t.gender == Entities.Female
    ensures forall i :: 0 <= i < |v| && Entities.IsPersonLike(v[i]) && v[i].gender == Entities.Female ==>
              v[i] in Kept(v, Entities.WomanPower)
  {
    KeptSound(v, Entities.WomanPower);
    KeptComplete(v, Entities.WomanPower);
  }

  /** A collection of cars prints nothing but the separator under `womanPower`. */
  lemma WomanPowerIgnoresCars(v: seq<Entities.Thing>)
    requires forall i :: 0 <= i < |v| ==> v[i].Car?
    ensures Printed(v, Entities.WomanPower) == [Separator]
  {
    NothingKept(v, Entities.WomanPower);
  }
}
