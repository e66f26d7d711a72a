/**
 * Sequence helpers shared by the grouping, sorting and tool-catalogue models:
 * first-seen de-duplication (the key order of a Python dict filled in a loop)
 * and the sub-sequence of elements having one key.
 */
module Seqs {

  /** The position of the first occurrence of `x` in `xs`. */
  function IndexOf<T(==)>(xs: seq<T>, x: T): (i: nat)
    requires x in xs
    ensures i < |xs| && xs[i] == x && x !in xs[..i]
  {
    if xs[0] == x then 0 else 1 + IndexOf(xs[1..], x)
  }

  /** Appending leaves the first occurrence of an element already present where it was. */
  lemma {:induction false} IndexOfAppend<T>(xs: seq<T>, y: T, x: T)
    requires x in xs
    ensures IndexOf(xs + [y], x) == IndexOf(xs, x)
  {
    if xs[0] != x {
      assert (xs + [y])[1..] == xs[1..] + [y];
      IndexOfAppend(xs[1..], y, x);
    }
  }

  /** The distinct elements of `xs` in the order they are first met: the keys of a dict filled from `xs`. */
  function FirstSeen<T(==,!new)>(xs: seq<T>): (r: seq<T>)
    ensures forall x :: x in r <==> x in xs
    ensures forall i, j :: 0 <= i < j < |r| ==> r[i] != r[j]
  {
    if xs == [] then []
    else
      var prev := FirstSeen(xs[..|xs| - 1]);
      var y := xs[|xs| - 1];
      assert xs == xs[..|xs| - 1] + [y];
      if y in prev then prev else prev + [y]
  }

  /** The elements of `FirstSeen(xs)` come in increasing order of their first occurrence in `xs`. */
  lemma {:induction false} FirstSeenOrder<T(!new)>(xs: seq<T>)
    ensures forall i, j :: 0 <= i < j < |FirstSeen(xs)| ==>
              IndexOf(xs, FirstSeen(xs)[i]) < IndexOf(xs, FirstSeen(xs)[j])
    decreases |xs|
  {
    if xs != [] {
      var init := xs[..|xs| - 1];
      var y := xs[|xs| - 1];
      assert xs == init + [y];
      FirstSeenOrder(init);
      var prev := FirstSeen(init);
      var r := FirstSeen(xs);
      forall i, j | 0 <= i < j < |r|
        ensures IndexOf(xs, r[i]) < IndexOf(xs, r[j])
      {
        IndexOfAppend(init, y, r[i]);
        if j < |prev| {
          IndexOfAppend(init, y, r[j]);
        } else {
          assert r[j] == y && y !in init;
          assert IndexOf(xs, y) == |init|;
        }
      }
    }
  }

  /** The elements of `xs` whose key is `k`, in their order in `xs`. */
  function Having<T>(xs: seq<T>, key: T -> string, k: string): (r: seq<T>)
    ensures |r| <= |xs|
    ensures forall i :: 0 <= i < |r| ==> key(r[i]) == k
  {
    if xs == [] then [] else (if key(xs[0]) == k then [xs[0]] else []) + Having(xs[1..], key, k)
  }

  /** Selecting by key distributes over concatenation. */
  lemma {:induction false} HavingConcat<T>(a: seq<T>, b: seq<T>, key: T -> string, k: string)
    ensures Having(a + b, key, k) == Having(a, key, k) + Having(b, key, k)
    decreases |a|
  {
    if a != [] {
      assert (a + b)[0] == a[0] && (a + b)[1..] == a[1..] + b;
      HavingConcat(a[1..], b, key, k);
    } else {
      assert a + b == b;
    }
  }

  /** An element with the key is selected, ahead of what follows it. */
  lemma HavingAt<T>(xs: seq<T>, key: T -> string, k: string, i: nat)
    requires i < |xs| && key(xs[i]) == k
    ensures |Having(xs, key, k)| == |Having(xs[..i], key, k)| + 1 + |Having(xs[i + 1..], key, k)|
  {
    assert xs == xs[..i] + ([xs[i]] + xs[i + 1..]);
    HavingConcat(xs[..i], [xs[i]] + xs[i + 1..], key, k);
    HavingConcat([xs[i]], xs[i + 1..], key, k);
    assert [xs[i]][1..] == [];
  }

  /** Two elements with the key are both selected. */
  lemma HavingTwo<T>(xs: seq<T>, key: T -> string, k: string, i: nat, j: nat)
    requires i < j < |xs| && key(xs[i]) == k && key(xs[j]) == k
    ensures |Having(xs, key, k)| >= 2
  {
    HavingAt(xs, key, k, i);
    assert xs[i + 1..][j - i - 1] == xs[j];
    HavingAt(xs[i + 1..], key, k, j - i - 1);
  }
}
