/** Counting arguments. */
module Counting {

  lemma {:induction false} BoundedSet(a: set<int>, n: nat)
    requires forall x | x in a :: 0 <= x < n
    ensures |a| <= n
  {
    if n > 0 {
      BoundedSet(a - {n - 1}, n - 1);
      if n - 1 in a { assert |a - {n - 1}| == |a| - 1; } else { assert a - {n - 1} == a; }
    } else {
      assert forall x | x in a :: false;
    }
  }

  lemma {:induction false} Injective<T>(codes: seq<T>)
    requires forall i, j | 0 <= i < j < |codes| :: codes[i] != codes[j]
    ensures |set x | x in codes| == |codes|
  {
    if codes != [] {
      var n := |codes| - 1;
      Injective(codes[..n]);
      assert (set x | x in codes) == (set x | x in codes[..n]) + {codes[n]};
    }
  }

  /** There are at most n different numbers below n. */
  lemma Pigeonhole(codes: seq<int>, n: nat)
    requires forall i | 0 <= i < |codes| :: 0 <= codes[i] < n
    requires forall i, j | 0 <= i < j < |codes| :: codes[i] != codes[j]
    ensures |codes| <= n
  {
    Injective(codes);
    BoundedSet((set x | x in codes), n);
  }

  lemma SubsetSize<T>(a: set<T>, b: set<T>)
    requires a <= b
    ensures |a| <= |b| && (a != b ==> |a| < |b|)
  {
    assert b == a + (b - a);
  }
}
