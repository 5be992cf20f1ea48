/**
 Views over a store are sequences of positions in it. `Where` is
 Array.prototype.filter expressed on positions: the positions below n that
 satisfy a test, in increasing order.
 */
module Indices {

  predicate StrictlyIncreasing(s: seq<nat>)
  {
    forall i, j :: 0 <= i < j < |s| ==> s[i] < s[j]
  }

  /** The positions below n that pass p, in order; every one of them and nothing else. */
  function Where(n: nat, p: nat -> bool): (r: seq<nat>)
    ensures StrictlyIncreasing(r)
    ensures forall k :: 0 <= k < |r| ==> r[k] < n && p(r[k])
    ensures forall i :: 0 <= i < n && p(i) ==> i in r
    ensures |r| <= n
  {
    if n == 0 then []
    else
      var prev := Where(n - 1, p);
      if p(n - 1) then prev + [n - 1] else prev
  }

  /** 0, 1, ..., n-1. */
  function Range(n: nat): (r: seq<nat>)
    ensures |r| == n
    ensures forall k :: 0 <= k < n ==> r[k] == k
  {
    seq(n, k requires 0 <= k < n => k)
  }

  /** A filter that keeps every position is the identity view. */
  lemma {:induction false} WhereAll(n: nat, p: nat -> bool)
    requires forall i :: 0 <= i < n ==> p(i)
    ensures Where(n, p) == Range(n)
  {
    if n > 0 {
      WhereAll(n - 1, p);
    }
  }
}
