/** Finite sets, and sequences without repetitions. */
module Finite {
  /** The naturals below `n`. */
  ghost function Below(n: nat): (r: set<nat>)
    ensures forall i: int :: i in r <==> 0 <= i < n
    ensures |r| == n
  {
    if n == 0 then {} else Below(n - 1) + {n - 1}
  }

  lemma SubsetSize<T>(a: set<T>, b: set<T>)
    requires a <= b
    ensures |a| <= |b|
  {
    assert b == a + (b - a);
  }

  ghost predicate NoDup(q: seq<nat>) {
    forall i, j :: 0 <= i < j < |q| ==> q[i] != q[j]
  }

  /** The elements of a sequence. */
  ghost function Ids(q: seq<nat>): (r: set<nat>) {
    set x | x in q
  }

  lemma {:induction false} NoDupSize(q: seq<nat>)
    requires NoDup(q)
    ensures |Ids(q)| == |q|
  {
    if q != [] {
      var n := |q| - 1;
      NoDupSize(q[..n]);
      assert q[n] !in q[..n];
      assert Ids(q) == Ids(q[..n]) + {q[n]};
    }
  }

  lemma NoDupConcat(a: seq<nat>, b: seq<nat>)
    requires NoDup(a) && NoDup(b) && forall x :: x in a ==> x !in b
    ensures NoDup(a + b)
  {
    var c := a + b;
    forall i, j | 0 <= i < j < |c| ensures c[i] != c[j] {
      assert i < |a| ==> c[i] in a;
      assert j >= |a| ==> c[j] in b;
    }
  }
}
