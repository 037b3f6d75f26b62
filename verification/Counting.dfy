/** Indexes round a ring, and counting arguments over them. */
module Counting {

  /** The place reached from `start` after `n` steps round a ring of `size`. */
  function RingIndex(start: nat, n: nat, size: nat): (i: nat)
    requires start < size && n <= size
    ensures i < size
  {
    if start + n < size then start + n else start + n - size
  }

  /** A list without repetition. */
  ghost predicate Distinct<T(!new)>(s: seq<T>) {
    forall i, j :: 0 <= i < j < |s| ==> s[i] != s[j]
  }

  /** The numbers below n. */
  ghost function Below(n: nat): (s: set<nat>)
    ensures forall k: int :: k in s <==> 0 <= k < n
    ensures |s| == n
  {
    if n == 0 then {} else Below(n - 1) + {n - 1}
  }

  /** The numbers in a list without repetition. */
  ghost function Elements(ks: seq<nat>): (s: set<nat>)
    requires Distinct(ks)
    ensures forall k :: k in s <==> k in ks
    ensures |s| == |ks|
    decreases |ks|
  {
    if |ks| == 0 then {}
    else
      var n := |ks| - 1;
      assert ks == ks[..n] + [ks[n]];
      assert ks[n] !in ks[..n];
      Elements(ks[..n]) + {ks[n]}
  }

  lemma FullSubset(a: set<nat>, b: set<nat>)
    requires a <= b && |a| >= |b|
    ensures a == b
  {
    assert b == a + (b - a);
    assert |b - a| == 0;
  }

  /** n distinct numbers below n are all of them. */
  lemma Pigeonhole(ks: seq<nat>, n: nat)
    requires |ks| == n && (forall j :: 0 <= j < n ==> ks[j] < n)
    requires Distinct(ks)
    ensures forall k :: 0 <= k < n ==> k in ks
  {
    FullSubset(Elements(ks), Below(n));
    forall k | 0 <= k < n ensures k in ks {
      assert k in Below(n);
    }
  }
}
