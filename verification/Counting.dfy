/** Cardinalities of finite sets of numbers. */
module Counting {

  function UpTo(n: nat): (s: set<nat>)
    ensures forall k: nat :: k in s <==> k < n
    ensures |s| == n
  {
    if n == 0 then {} else UpTo(n - 1) + {n - 1}
  }

  lemma {:induction false} SubsetSize<T>(a: set<T>, b: set<T>)
    requires a <= b
    ensures |a| <= |b|
  {
    if a != {} {
      var x :| x in a;
      SubsetSize(a - {x}, b - {x});
    }
  }

  lemma {:induction false} DistinctSize(s: seq<nat>, a: set<nat>)
    requires forall i, j | 0 <= i < j < |s| :: s[i] != s[j]
    requires forall i | 0 <= i < |s| :: s[i] in a
    ensures |s| <= |a|
  {
    if |s| > 0 {
      var last := s[|s| - 1];
      DistinctSize(s[..|s| - 1], a - {last});
    }
  }

  /** n distinct numbers below n are all the numbers below n. */
  lemma Pigeonhole(s: seq<nat>, n: nat, k: nat)
    requires |s| == n && k < n
    requires forall i | 0 <= i < n :: s[i] < n
    requires forall i, j | 0 <= i < j < n :: s[i] != s[j]
    ensures exists i :: 0 <= i < n && s[i] == k
  {
    if k !in s {
      DistinctSize(s, UpTo(n) - {k});
    }
  }
}
