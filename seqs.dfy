/** Sequence helpers shared by the pipeline: duplicate-free sequences,
    first occurrences and first-occurrence de-duplication (pandas `unique`,
    index union). */
module Seqs {

  predicate NoDuplicates<T(==)>(s: seq<T>) {
    forall i, j :: 0 <= i < j < |s| ==> s[i] != s[j]
  }

  /** Position of the first occurrence of `x` in `s`. */
  function IndexOf<T(==)>(s: seq<T>, x: T): (k: nat)
    requires x in s
    ensures k < |s| && s[k] == x
    ensures forall i :: 0 <= i < k ==> s[i] != x
  {
    if s[0] == x then 0 else 1 + IndexOf(s[1..], x)
  }

  /** The distinct elements of `s`, each at its first occurrence. */
  function Distinct<T(==)>(s: seq<T>): (r: seq<T>)
    ensures forall i :: 0 <= i < |s| ==> s[i] in r
    ensures forall i :: 0 <= i < |r| ==> r[i] in s
    ensures NoDuplicates(r)
  {
    if s == [] then []
    else
      var r := Distinct(s[..|s| - 1]);
      var x := s[|s| - 1];
      assert forall i :: 0 <= i < |s| - 1 ==> s[i] == s[..|s| - 1][i];
      if x in r then r else r + [x]
  }

  lemma {:induction false} IndexOfPrefix<T>(s: seq<T>, n: nat, x: T)
    requires n <= |s| && x in s[..n]
    ensures x in s && IndexOf(s, x) == IndexOf(s[..n], x)
  {
    var k := IndexOf(s[..n], x);
    assert s[k] == x;
    var j := IndexOf(s, x);
    assert j <= k;
    assert s[..n][j] == x;
  }

  /** `Distinct` lists the elements in the order of their first occurrence. */
  lemma {:induction false} DistinctFirstOccurrenceOrder<T>(s: seq<T>)
    ensures forall i, j :: 0 <= i < j < |Distinct(s)| ==>
      IndexOf(s, Distinct(s)[i]) < IndexOf(s, Distinct(s)[j])
  {
    if s != [] {
      var p := s[..|s| - 1];
      var x := s[|s| - 1];
      DistinctFirstOccurrenceOrder(p);
      var r := Distinct(p);
      forall i, j | 0 <= i < j < |Distinct(s)|
        ensures IndexOf(s, Distinct(s)[i]) < IndexOf(s, Distinct(s)[j])
      {
        assert Distinct(s)[i] == r[i];
        IndexOfPrefix(s, |s| - 1, r[i]);
        if j < |r| {
          IndexOfPrefix(s, |s| - 1, r[j]);
        } else {
          assert Distinct(s)[j] == x && x !in p;
          assert IndexOf(s, x) == |s| - 1 by {
            forall k | 0 <= k < |s| - 1 ensures s[k] != x { assert s[k] == p[k]; }
          }
        }
      }
    }
  }

  /** The indices 0, 1, ..., n - 1. */
  function Range(n: nat): (r: seq<nat>)
    ensures |r| == n && forall k :: 0 <= k < n ==> r[k] == k
  {
    seq(n, k requires 0 <= k < n => k)
  }
}
