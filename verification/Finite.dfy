/** Cardinality facts about finite sets. */
module Finite {
  /** There are at most `n` numbers in a range of `n`. */
  lemma {:induction false} RangeSize(s: set<nat>, lo: nat, n: nat)
    requires forall x :: x in s ==> lo <= x < lo + n
    ensures |s| <= n
  {
    if n == 0 {
      assert s == {};
    } else {
      var top := lo + n - 1;
      RangeSize(s - {top}, lo, n - 1);
      assert top in s ==> s == s - {top} + {top};
      assert top !in s ==> s == s - {top};
    }
  }

  lemma {:induction false} SubsetSize<T>(a: set<T>, b: set<T>)
    requires a <= b
    ensures |a| <= |b|
    ensures |a| == |b| ==> a == b
  {
    assert b == a + (b - a);
    assert |b| == |a| + |b - a|;
  }

  /** An injective map has as many values as keys. */
  lemma {:induction false} ValuesSize<K, V>(m: map<K, V>)
    requires forall a, b :: a in m && b in m && m[a] == m[b] ==> a == b
    ensures |m.Values| == |m.Keys|
    decreases |m|
  {
    if m.Keys != {} {
      var k :| k in m.Keys;
      var rest := m - {k};
      assert m.Keys == rest.Keys + {k};
      ValuesSize(rest);
      assert m[k] !in rest.Values;
      assert m.Values == rest.Values + {m[k]};
    }
  }

  /** As many distinct elements of `s` as `s` has are all of `s`. */
  lemma {:induction false} DistinctCover<T>(xs: seq<T>, s: set<T>, x: T)
    requires |xs| == |s| && x in s
    requires forall i :: 0 <= i < |xs| ==> xs[i] in s
    requires forall i, j :: 0 <= i < j < |xs| ==> xs[i] != xs[j]
    ensures x in xs
  {
    if |xs| > 0 {
      var n := |xs| - 1;
      if xs[n] != x {
        DistinctCover(xs[..n], s - {xs[n]}, x);
      }
    }
  }

  function Elements<T>(xs: seq<T>): set<T> {
    set x | x in xs
  }

  lemma {:induction false} DistinctSize<T>(xs: seq<T>)
    requires forall i, j :: 0 <= i < j < |xs| ==> xs[i] != xs[j]
    ensures |Elements(xs)| == |xs|
  {
    if xs != [] {
      var n := |xs| - 1;
      DistinctSize(xs[..n]);
      assert Elements(xs) == Elements(xs[..n]) + {xs[n]};
      assert xs[n] !in Elements(xs[..n]);
    }
  }
}
