/** Notions about sequences that several parts of the kernel share. */
module Sequences {
  import opened Rust

  /** Pieces laid end to end. */
  function Flat<T>(pieces: seq<seq<T>>): seq<T> {
    if pieces == [] then [] else Flat(pieces[..|pieces| - 1]) + pieces[|pieces| - 1]
  }

  /** Each piece starts where the one before it ends. */
  predicate Spaced<T>(pieces: seq<seq<T>>, offsets: seq<nat>) {
    && |offsets| == |pieces| + 1 && offsets[0] == 0
    && forall k :: 0 <= k < |pieces| ==> offsets[k + 1] == offsets[k] + |pieces[k]|
  }

  lemma SpacedInit<T>(pieces: seq<seq<T>>, offsets: seq<nat>)
    requires Spaced(pieces, offsets) && pieces != []
    ensures var last := |pieces| - 1;
            && |offsets| == last + 2
            && Spaced(pieces[..last], offsets[..last + 1])
            && offsets[last + 1] == offsets[last] + |pieces[last]|
  {
  }

  lemma {:induction false} FlatLength<T>(pieces: seq<seq<T>>, offsets: seq<nat>)
    requires Spaced(pieces, offsets)
    ensures |offsets| == |pieces| + 1 && |Flat(pieces)| == offsets[|pieces|]
  {
    if pieces == [] {
    } else {
      hide Spaced;
      var last := |pieces| - 1;
      SpacedInit(pieces, offsets);
      FlatLength(pieces[..last], offsets[..last + 1]);
    }
  }

  lemma SliceOfSum<T>(a: seq<T>, b: seq<T>, from: nat, to: nat)
    requires from <= to <= |a|
    ensures (a + b)[from..to] == a[from..to]
  {
  }

  lemma LastSlice<T>(a: seq<T>, b: seq<T>)
    ensures (a + b)[|a|..|a| + |b|] == b
  {
  }

  lemma {:induction false} FlatSlice<T>(pieces: seq<seq<T>>, offsets: seq<nat>, k: nat)
    requires Spaced(pieces, offsets) && k < |pieces|
    ensures |offsets| == |pieces| + 1
    ensures offsets[k + 1] == offsets[k] + |pieces[k]| <= |Flat(pieces)| == offsets[|pieces|]
    ensures Flat(pieces)[offsets[k]..offsets[k + 1]] == pieces[k]
  {
    hide Spaced;
    var last := |pieces| - 1;
    SpacedInit(pieces, offsets);
    var init, starts := pieces[..last], offsets[..last + 1];
    FlatLength(init, starts);
    if k == last {
      LastSlice(Flat(init), pieces[last]);
    } else {
      FlatSlice(init, starts, k);
      SliceOfSum(Flat(init), pieces[last], offsets[k], offsets[k + 1]);
    }
  }

  /** The first place of an element, or one past the end. */
  function IndexOf<T(==)>(s: seq<T>, x: T): (i: nat)
    ensures i <= |s| && x !in s[..i] && (i < |s| ==> s[i] == x)
  {
    if s == [] || s[0] == x then 0 else 1 + IndexOf(s[1..], x)
  }

  lemma {:induction false} IndexOfCut<T>(a: seq<T>, b: seq<T>, x: T)
    requires x !in a
    ensures IndexOf(a + [x] + b, x) == |a|
  {
    var s := a + [x] + b;
    if a == [] {
    } else {
      assert s[1..] == a[1..] + [x] + b;
      IndexOfCut(a[1..], b, x);
    }
  }

  lemma CutSlices<T>(a: seq<T>, b: seq<T>, x: T)
    ensures var s := a + [x] + b; s[..|a|] == a && s[|a| + 1..] == b
  {
  }

  /** What is in front of a separator that does not occur there is determined, and so is the rest. */
  lemma CutUnique<T>(a: seq<T>, b: seq<T>, c: seq<T>, d: seq<T>, x: T)
    requires x !in a && x !in c && a + [x] + b == c + [x] + d
    ensures a == c && b == d
  {
    IndexOfCut(a, b, x);
    IndexOfCut(c, d, x);
    CutSlices(a, b, x);
    CutSlices(c, d, x);
  }

  lemma PrefixDrops<T>(a: seq<T>, b: seq<T>, c: seq<T>)
    requires a + b == a + c
    ensures b == c
  {
    assert (a + b)[|a|..] == b && (a + c)[|a|..] == c;
  }

  predicate Distinct<T(==)>(s: seq<T>) {
    forall i, j :: 0 <= i < j < |s| ==> s[i] != s[j]
  }

  /** What a loop has collected so far, in front of what the rest of its run collects. */
  function Prepend<T>(done: seq<T>, rest: Outcome<seq<T>>): Outcome<seq<T>> {
    match rest
    case Returns(more) => Returns(done + more)
    case Panics => Panics
    case Strays => Strays
  }

  lemma PrependNothing<T>(rest: Outcome<seq<T>>)
    ensures Prepend([], rest) == rest
  {
    if rest.Returns? {
      assert [] + rest.value == rest.value;
    }
  }

  lemma PrependMore<T>(done: seq<T>, next: seq<T>, rest: Outcome<seq<T>>)
    ensures Prepend(done, Prepend(next, rest)) == Prepend(done + next, rest)
  {
    if rest.Returns? {
      assert done + (next + rest.value) == done + next + rest.value;
    }
  }
}
