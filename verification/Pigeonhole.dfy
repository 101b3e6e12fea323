/** Counting arguments on duplicate-free sequences. */
module Pigeonhole {

  ghost predicate NoDuplicates<T>(xs: seq<T>) {
    forall i, j :: 0 <= i < j < |xs| ==> xs[i] != xs[j]
  }

  function Elements<T>(xs: seq<T>): set<T> {
    set x | x in xs
  }

  lemma {:induction false} CountElements<T>(xs: seq<T>)
    requires NoDuplicates(xs)
    ensures |Elements(xs)| == |xs|
  {
    if xs != [] {
      var n := |xs| - 1;
      CountElements(xs[..n]);
      assert Elements(xs) == Elements(xs[..n]) + {xs[n]};
    }
  }

  lemma FitsIn<T>(xs: seq<T>, bound: set<T>)
    requires NoDuplicates(xs) && forall x :: x in xs ==> x in bound
    ensures |xs| <= |bound|
  {
    CountElements(xs);
    Inclusion(Elements(xs), bound);
  }

  lemma {:induction false} Inclusion<T>(a: set<T>, b: set<T>)
    requires a <= b
    ensures |a| <= |b|
  {
    if a != {} {
      var x :| x in a;
      Inclusion(a - {x}, b - {x});
    }
  }

  function Below(n: nat): (s: set<nat>)
    ensures |s| == n && forall i: nat :: i in s <==> i < n
  {
    if n == 0 then {} else Below(n - 1) + {n - 1}
  }

  /** n distinct numbers below n are all the numbers below n. */
  lemma Covers(xs: seq<nat>, n: nat)
    requires NoDuplicates(xs) && |xs| == n && forall x :: x in xs ==> x < n
    ensures forall i: nat :: i < n ==> i in xs
  {
    CountElements(xs);
    forall i: nat | i < n ensures i in xs {
      if i !in xs {
        Inclusion(Elements(xs), Below(n) - {i});
      }
    }
  }
}
