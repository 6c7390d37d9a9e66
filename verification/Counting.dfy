/** Counting elements of finite sets of indices. */
module Counting {
  /** The indices below n. */
  function UpTo(n: nat): (r: set<nat>)
    ensures |r| == n && forall s: nat :: s in r <==> s < n
  {
    if n == 0 then {} else UpTo(n - 1) + {n - 1}
  }

  lemma {:induction false} Smaller(a: set<nat>, b: set<nat>)
    requires a <= b
    ensures |a| <= |b|
  {
    if a != {} {
      var x :| x in a;
      Smaller(a - {x}, b - {x});
    }
  }

  /** A set of n indices below n holds all of them. */
  lemma AllIn(a: set<nat>, n: nat, i: nat)
    requires |a| == n && i < n && forall x :: x in a ==> x < n
    ensures i in a
  {
    if i !in a {
      Smaller(a, UpTo(n) - {i});
    }
  }
}
