/**
 * Python's `sorted(pairs, key=lambda x: x[0], reverse=True)` on (key, value)
 * pairs: a stable sort into non-increasing key order, so that pairs with equal
 * keys keep their original relative order. Modelled as an insertion sort that
 * places each pair after every later pair with a greater key.
 */
module PySorted {

  /** Keys never increase from left to right. */
  predicate NonIncreasing<T>(xs: seq<(int, T)>)
  {
    forall i, j :: 0 <= i < j < |xs| ==> xs[i].0 >= xs[j].0
  }

  /** Inserts `x` in front of the first pair whose key is not greater than its own. */
  function Insert<T>(x: (int, T), s: seq<(int, T)>): (r: seq<(int, T)>)
    ensures |r| == |s| + 1 && multiset(r) == multiset(s) + multiset{x}
  {
    if s == [] || s[0].0 <= x.0 then [x] + s
    else
      assert s == [s[0]] + s[1..];
      [s[0]] + Insert(x, s[1..])
  }

  /** Inserting a pair under a bound into pairs under that bound keeps them under it. */
  lemma {:induction false} InsertBounded<T>(x: (int, T), s: seq<(int, T)>, b: int)
    requires x.0 <= b && forall i :: 0 <= i < |s| ==> s[i].0 <= b
    ensures forall i :: 0 <= i < |Insert(x, s)| ==> Insert(x, s)[i].0 <= b
  {
    if s != [] && x.0 < s[0].0 {
      InsertBounded(x, s[1..], b);
    }
  }

  /** Inserting into pairs in non-increasing key order keeps that order. */
  lemma {:induction false} InsertSorted<T>(x: (int, T), s: seq<(int, T)>)
    requires NonIncreasing(s)
    ensures NonIncreasing(Insert(x, s))
  {
    if s != [] && x.0 < s[0].0 {
      var rest := Insert(x, s[1..]);
      InsertSorted(x, s[1..]);
      InsertBounded(x, s[1..], s[0].0);
      assert Insert(x, s) == [s[0]] + rest;
    }
  }

  /** The stable sort by non-increasing key. */
  function SortDescending<T>(xs: seq<(int, T)>): (r: seq<(int, T)>)
    ensures multiset(r) == multiset(xs)
    ensures NonIncreasing(r)
  {
    if xs == [] then []
    else
      assert xs == [xs[0]] + xs[1..];
      var sorted := SortDescending(xs[1..]);
      InsertSorted(xs[0], sorted);
      Insert(xs[0], sorted)
  }

  /** The pairs whose key is `k`, in their order in `xs`. */
  function WithKey<T>(k: int, xs: seq<(int, T)>): (r: seq<(int, T)>)
  {
    if xs == [] then [] else (if xs[0].0 == k then [xs[0]] else []) + WithKey(k, xs[1..])
  }

  /** On at most one pair, `WithKey` keeps it exactly when its key is `k`. */
  lemma WithKeySingle<T>(k: int, xs: seq<(int, T)>)
    requires |xs| <= 1
    ensures WithKey(k, xs) == if xs != [] && xs[0].0 == k then xs else []
  {
    if xs != [] {
      assert xs[1..] == [];
    }
  }

  lemma {:induction false} WithKeyConcat<T>(k: int, a: seq<(int, T)>, b: seq<(int, T)>)
    ensures WithKey(k, a + b) == WithKey(k, a) + WithKey(k, b)
  {
    if a == [] {
      assert a + b == b;
    } else {
      var head := if a[0].0 == k then [a[0]] else [];
      assert (a + b)[0] == a[0] && (a + b)[1..] == a[1..] + b;
      WithKeyConcat(k, a[1..], b);
      assert WithKey(k, a + b) == head + (WithKey(k, a[1..]) + WithKey(k, b));
      assert head + (WithKey(k, a[1..]) + WithKey(k, b)) == (head + WithKey(k, a[1..])) + WithKey(k, b);
    }
  }

  /** Inserting `x` adds it in front of the pairs with its key and leaves the other keys' pairs alone. */
  lemma {:induction false} InsertWithKey<T>(k: int, x: (int, T), s: seq<(int, T)>)
    ensures WithKey(k, Insert(x, s)) == if x.0 == k then [x] + WithKey(k, s) else WithKey(k, s)
  {
    if s == [] || s[0].0 <= x.0 {
      assert ([x] + s)[1..] == s;
    } else {
      var rest := Insert(x, s[1..]);
      assert ([s[0]] + rest)[1..] == rest;
      InsertWithKey(k, x, s[1..]);
    }
  }

  /** Stability: for every key, the sort keeps the pairs with that key in their original order. */
  lemma {:induction false} SortDescendingIsStable<T>(k: int, xs: seq<(int, T)>)
    ensures WithKey(k, SortDescending(xs)) == WithKey(k, xs)
  {
    if xs != [] {
      SortDescendingIsStable(k, xs[1..]);
      InsertWithKey(k, xs[0], SortDescending(xs[1..]));
    }
  }
}
