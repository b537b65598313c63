/** Distinct sequences, permutations and the size of sets. */
module Counting {
  ghost predicate Distinct<T>(s: seq<T>) {
    forall i, j :: 0 <= i < j < |s| ==> s[i] != s[j]
  }

  /** As many holes as pigeons. */
  lemma {:induction false} Pigeonhole<T>(a: seq<T>, b: seq<T>)
    requires Distinct(a) && forall x <- a :: x in b
    ensures |a| <= |b|
  {
    if a != [] {
      var x := a[|a| - 1];
      assert x in a;
      var k :| 0 <= k < |b| && b[k] == x;
      var rest := b[..k] + b[k + 1..];
      forall y <- a[..|a| - 1]
        ensures y in rest
      {
        assert y in a;
        var j :| 0 <= j < |b| && b[j] == y;
        assert y == if j < k then rest[j] else rest[j - 1];
      }
      Pigeonhole(a[..|a| - 1], rest);
    }
  }

  /** `s` lists each of 0 .. |s| - 1 once. */
  ghost predicate IsPermutation(s: seq<int>) {
    Distinct(s) && forall i :: 0 <= i < |s| ==> 0 <= s[i] < |s|
  }

  /** A permutation takes every value. */
  lemma PermutationIsOnto(s: seq<int>, v: int)
    requires IsPermutation(s) && 0 <= v < |s|
    ensures v in s
  {
    if v !in s {
      var others := seq(|s| - 1, i => if i < v then i else i + 1);
      forall x <- s
        ensures x in others
      {
        assert x == others[if x < v then x else x - 1];
      }
      Pigeonhole(s, others);
    }
  }

  /** Some index is missing from a list that is too short to hold them all. */
  lemma SomeIndexIsMissing(s: seq<nat>, n: nat) returns (i: nat)
    requires |s| < n
    ensures i < n && i !in s
  {
    if forall i :: 0 <= i < n ==> i in s {
      var all := seq(n, i => i);
      Pigeonhole(all, s);
      assert false;
    }
    i :| 0 <= i < n && i !in s;
  }

  /** Sets that a relation pairs off one to one have the same size. */
  lemma {:induction false} SameSize<T, U>(a: set<T>, b: set<U>, f: map<T, U>)
    requires f.Keys == a && (forall x <- a :: f[x] in b)
    requires forall x, y :: x in a && y in a && f[x] == f[y] ==> x == y
    requires forall z <- b :: exists x :: x in a && f[x] == z
    ensures |a| == |b|
  {
    if a == {} {
      assert b == {};
    } else {
      var x :| x in a;
      var a', b' := a - {x}, b - {f[x]};
      var g := map y | y in a' :: f[y];
      forall z <- b'
        ensures exists y :: y in a' && g[y] == z
      {
        var y :| y in a && f[y] == z;
        assert y in a' && g[y] == z;
      }
      SameSize(a', b', g);
    }
  }

  function UpTo(n: nat): (s: set<nat>)
    ensures forall i: nat :: i in s <==> i < n
    ensures |s| == n
  {
    if n == 0 then {} else UpTo(n - 1) + {n - 1}
  }
}
