/**
 Sequences of distinct numbers below a bound.
 */
module DistinctIds {

  ghost predicate Distinct(ids: seq<nat>, n: nat) {
    && (forall k :: 0 <= k < |ids| ==> ids[k] < n)
    && (forall j, k :: 0 <= j < k < |ids| ==> ids[j] != ids[k])
  }

  function Below(n: nat): (r: set<nat>)
    ensures |r| == n && forall i: nat :: i in r <==> i < n
  {
    if n == 0 then {} else Below(n - 1) + {n - 1}
  }

  function Ids(ids: seq<nat>): set<nat> {
    set k | k in ids
  }

  lemma {:induction false} DistinctSize(ids: seq<nat>, n: nat)
    requires Distinct(ids, n)
    ensures |Ids(ids)| == |ids|
  {
    if ids != [] {
      var m := |ids| - 1;
      DistinctSize(ids[..m], n);
      forall k | 0 <= k < m ensures ids[..m][k] != ids[m] { assert ids[k] != ids[m]; }
      assert ids == ids[..m] + [ids[m]];
      assert Ids(ids) == Ids(ids[..m]) + {ids[m]};
    }
  }

  lemma Subset(a: set<nat>, b: set<nat>)
    requires a <= b
    ensures |a| <= |b| && (|a| == |b| ==> a == b)
  {
    assert b == a + (b - a);
  }

  /** Distinct ids below n number at most n, and exactly n when they are all of
      them. */
  lemma Pigeonhole(ids: seq<nat>, n: nat)
    requires Distinct(ids, n)
    ensures |ids| <= n
    ensures |ids| == n <==> forall i: nat :: i < n ==> i in ids
  {
    DistinctSize(ids, n);
    Subset(Ids(ids), Below(n));
    if |ids| == n {
      forall i: nat | i < n ensures i in ids { assert i in Ids(ids); }
    }
    if forall i: nat :: i < n ==> i in ids {
      assert Ids(ids) == Below(n);
    }
  }
}
