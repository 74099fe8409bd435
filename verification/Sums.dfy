/** Sums of multisets, and how they change when one term changes. */
module Sums {
  ghost function Total<T>(ms: seq<multiset<T>>): multiset<T> {
    if ms == [] then multiset{} else Total(ms[..|ms| - 1]) + ms[|ms| - 1]
  }

  lemma {:induction false} TotalUpdate<T>(ms: seq<multiset<T>>, k: nat, x: multiset<T>)
    requires k < |ms|
    ensures Total(ms[k := x]) + ms[k] == Total(ms) + x
  {
    var n := |ms| - 1;
    if k < n {
      TotalUpdate(ms[..n], k, x);
      assert ms[k := x][..n] == ms[..n][k := x] && ms[..n][k] == ms[k];
      assert Total(ms[k := x]) + ms[k] == (Total(ms[..n][k := x]) + ms[k]) + ms[n];
    } else {
      assert ms[k := x][..n] == ms[..n];
    }
  }

  /** An address is in a sum exactly when it is in one of the terms. */
  lemma {:induction false} InTotal<T>(ms: seq<multiset<T>>, a: T)
    ensures a in Total(ms) <==> exists k :: 0 <= k < |ms| && a in ms[k]
  {
    if ms != [] {
      var n := |ms| - 1;
      InTotal(ms[..n], a);
      if k :| 0 <= k < |ms| && a in ms[k] && k != n {
        assert ms[..n][k] == ms[k];
      }
    }
  }

  lemma {:induction false} TotalNothing<T>(ms: seq<multiset<T>>)
    requires forall k :: 0 <= k < |ms| ==> ms[k] == multiset{}
    ensures Total(ms) == multiset{}
  {
    if ms != [] {
      TotalNothing(ms[..|ms| - 1]);
    }
  }

  /** Cancelling a term on both sides. */
  lemma Keep<T(!new)>(x: multiset<T>, y: multiset<T>, p: multiset<T>)
    requires x + p == y + p
    ensures x == y
  {
    forall b ensures x[b] == y[b] {
      assert (x + p)[b] == (y + p)[b];
    }
  }

  lemma Cancel<T(!new)>(x: multiset<T>, y: multiset<T>, p: multiset<T>, a: T)
    requires x + p == y + (p + multiset{a})
    ensures x == y + multiset{a}
  {
    forall b ensures x[b] == (y + multiset{a})[b] {
      assert (x + p)[b] == (y + (p + multiset{a}))[b];
    }
  }
}
