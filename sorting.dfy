/**
 * Python's `sorted(xs, key=...)` over string keys: a stable sort in
 * code-point order. It is modelled as an insertion sort, and its result is
 * characterised by sortedness plus stability (the elements sharing a key keep
 * their input order), which together pin the output down.
 */
module Sorting {
  import opened Text
  import opened Seqs

  predicate SortedBy<T>(xs: seq<T>, key: T -> string) {
    forall i, j :: 0 <= i < j < |xs| ==> Le(key(xs[i]), key(xs[j]))
  }

  /** Strictly smaller keys differ. */
  lemma NotLeDiffers(a: string, b: string)
    requires !Le(a, b)
    ensures a != b
  {
    LeReflexive(a);
  }

  /** Inserts `x` in front of the first element whose key is not smaller than its own. */
  function InsertBy<T>(x: T, s: seq<T>, key: T -> string): (r: seq<T>)
    ensures |r| == |s| + 1
    ensures multiset(r) == multiset{x} + multiset(s)
  {
    if s == [] || Le(key(x), key(s[0])) then [x] + s
    else
      assert s == [s[0]] + s[1..];
      [s[0]] + InsertBy(x, s[1..], key)
  }

  /** Inserting into a sorted sequence keeps it sorted. */
  lemma {:induction false} InsertBySorted<T>(x: T, s: seq<T>, key: T -> string)
    requires SortedBy(s, key)
    ensures SortedBy(InsertBy(x, s, key), key)
    decreases |s|
  {
    var r := InsertBy(x, s, key);
    if s == [] || Le(key(x), key(s[0])) {
      forall i, j | 0 <= i < j < |r| ensures Le(key(r[i]), key(r[j])) {
        if i == 0 && j > 1 {
          LeTransitive(key(x), key(s[0]), key(s[j - 1]));
        }
      }
    } else {
      LeTotal(key(x), key(s[0]));
      var rest := InsertBy(x, s[1..], key);
      InsertBySorted(x, s[1..], key);
      forall i, j | 0 <= i < j < |r| ensures Le(key(r[i]), key(r[j])) {
        if i == 0 {
          assert r[j] in multiset(rest);
          if r[j] != x {
            assert r[j] in multiset(s[1..]);
            var m :| 0 <= m < |s[1..]| && s[1..][m] == r[j];
            assert s[m + 1] == r[j];
          }
        } else {
          assert r[i] == rest[i - 1] && r[j] == rest[j - 1];
        }
      }
    }
  }

  /** `Having` on a sequence with a known first element. */
  lemma HavingCons<T>(y: T, t: seq<T>, key: T -> string, k: string)
    ensures Having([y] + t, key, k) == (if key(y) == k then [y] else []) + Having(t, key, k)
  {
    assert ([y] + t)[0] == y && ([y] + t)[1..] == t;
  }

  /** Inserting `x` does not reorder it against the elements that share its key. */
  lemma {:induction false} InsertByHaving<T>(x: T, s: seq<T>, key: T -> string, k: string)
    ensures Having(InsertBy(x, s, key), key, k) == Having([x] + s, key, k)
    decreases |s|
  {
    if !(s == [] || Le(key(x), key(s[0]))) {
      NotLeDiffers(key(x), key(s[0]));
      var rest := InsertBy(x, s[1..], key);
      var hx := if key(x) == k then [x] else [];
      var hs := if key(s[0]) == k then [s[0]] else [];
      assert hx == [] || hs == [];
      calc {
        Having(InsertBy(x, s, key), key, k);
        Having([s[0]] + rest, key, k);
        { HavingCons(s[0], rest, key, k); }
        hs + Having(rest, key, k);
        { InsertByHaving(x, s[1..], key, k); }
        hs + Having([x] + s[1..], key, k);
        { HavingCons(x, s[1..], key, k); }
        hs + (hx + Having(s[1..], key, k));
        hx + (hs + Having(s[1..], key, k));
        { HavingCons(s[0], s[1..], key, k); assert [s[0]] + s[1..] == s; }
        hx + Having(s, key, k);
        { HavingCons(x, s, key, k); }
        Having([x] + s, key, k);
      }
    }
  }

  /** `sorted(xs, key=key)`. */
  function SortBy<T>(xs: seq<T>, key: T -> string): (r: seq<T>)
    ensures |r| == |xs|
    ensures multiset(r) == multiset(xs)
    ensures SortedBy(r, key)
  {
    if xs == [] then []
    else
      assert xs == [xs[0]] + xs[1..];
      InsertBySorted(xs[0], SortBy(xs[1..], key), key);
      InsertBy(xs[0], SortBy(xs[1..], key), key)
  }

  /** Stability: the elements that share a key come out in their input order. */
  lemma {:induction false} SortByStable<T>(xs: seq<T>, key: T -> string, k: string)
    ensures Having(SortBy(xs, key), key, k) == Having(xs, key, k)
    decreases |xs|
  {
    if xs != [] {
      var rest := SortBy(xs[1..], key);
      SortByStable(xs[1..], key, k);
      calc {
        Having(SortBy(xs, key), key, k);
        { InsertByHaving(xs[0], rest, key, k); }
        Having([xs[0]] + rest, key, k);
        { HavingCons(xs[0], rest, key, k); }
        (if key(xs[0]) == k then [xs[0]] else []) + Having(rest, key, k);
        (if key(xs[0]) == k then [xs[0]] else []) + Having(xs[1..], key, k);
        Having(xs, key, k);
      }
    }
  }
}
