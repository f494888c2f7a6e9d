/**
 The pointer chase of `measurePointerChaseWithLoad`: a random order of the nodes,
 linked into a ring, and the walk along the links.
 */
module PointerRing {
  import opened DistinctIds

  const NODE_SIZE: nat := 64

  // ----- Shuffling --------------------------------------------------------------

  /** Each of 0..n-1 exactly once. */
  ghost predicate Perm(s: seq<nat>) {
    Distinct(s, |s|)
  }

  /** Possible results of the random draws: the draw for position `i` is at most `i`. */
  ghost predicate Draws(c: seq<nat>) {
    forall i :: 0 <= i < |c| ==> c[i] <= i
  }

  function Swap(s: seq<nat>, i: nat, j: nat): (r: seq<nat>)
    requires i < |s| && j < |s|
    ensures |r| == |s|
  {
    s[i := s[j]][j := s[i]]
  }

  /** `s` after the draws for positions `i - 1` down to 1. */
  function Shuffled(s: seq<nat>, c: seq<nat>, i: nat): (r: seq<nat>)
    requires i <= |s| == |c| && Draws(c)
    ensures |r| == |s|
    decreases i
  {
    if i <= 1 then s else Shuffled(Swap(s, i - 1, c[i - 1]), c, i - 1)
  }

  lemma SwapKeepsPerm(s: seq<nat>, i: nat, j: nat)
    requires Perm(s) && i < |s| && j < |s|
    ensures Perm(Swap(s, i, j))
  {
  }

  /** Shuffling keeps a permutation a permutation. */
  lemma {:induction false} ShuffledIsPerm(s: seq<nat>, c: seq<nat>, i: nat)
    requires i <= |s| == |c| && Draws(c) && Perm(s)
    ensures Perm(Shuffled(s, c, i))
    decreases i
  {
    if i > 1 {
      SwapKeepsPerm(s, i - 1, c[i - 1]);
      ShuffledIsPerm(Swap(s, i - 1, c[i - 1]), c, i - 1);
    }
  }

  /** Positions whose draw has been made are final. */
  lemma {:induction false} ShuffledTail(s: seq<nat>, c: seq<nat>, i: nat)
    requires i <= |s| == |c| && Draws(c)
    ensures forall k :: i <= k < |s| ==> Shuffled(s, c, i)[k] == s[k]
    decreases i
  {
    if i > 1 { ShuffledTail(Swap(s, i - 1, c[i - 1]), c, i - 1); }
  }

  /** The draw for the last open position picks the node that goes there from the open
      ones; the last open node takes the place of the one picked. */
  lemma ShuffledPicks(s: seq<nat>, c: seq<nat>, i: nat)
    requires 1 <= i <= |s| == |c| && Draws(c)
    ensures Shuffled(s, c, i)[i - 1] == s[c[i - 1]]
    ensures i > 1 ==>
              && Shuffled(s, c, i) == Shuffled(Swap(s, i - 1, c[i - 1]), c, i - 1)
              && (c[i - 1] < i - 1 ==> Swap(s, i - 1, c[i - 1])[c[i - 1]] == s[i - 1])
              && forall k :: 0 <= k < i - 1 && k != c[i - 1] ==> Swap(s, i - 1, c[i - 1])[k] == s[k]
  {
    if i > 1 { ShuffledTail(Swap(s, i - 1, c[i - 1]), c, i - 1); }
  }

  /** Different draws give different orders. */
  lemma {:induction false} DrawsDetermined(s: seq<nat>, c: seq<nat>, d: seq<nat>, i: nat)
    requires i <= |s| == |c| == |d| && Draws(c) && Draws(d) && Perm(s)
    requires Shuffled(s, c, i) == Shuffled(s, d, i)
    ensures forall k :: 0 <= k < i ==> c[k] == d[k]
    decreases i
  {
    hide Perm;
    hide Swap;
    if i > 1 {
      var s1, s2 := Swap(s, i - 1, c[i - 1]), Swap(s, i - 1, d[i - 1]);
      ShuffledTail(s1, c, i - 1);
      ShuffledTail(s2, d, i - 1);
      SwapDetermined(s, i - 1, c[i - 1], d[i - 1]);
      SwapKeepsPerm(s, i - 1, c[i - 1]);
      DrawsDetermined(s1, c, d, i - 1);
    }
  }

  lemma SwapDetermined(s: seq<nat>, i: nat, j: nat, k: nat)
    requires Perm(s) && i < |s| && j < |s| && k < |s|
    ensures Swap(s, i, j)[i] == Swap(s, i, k)[i] ==> j == k
  {
  }

  /** Where a permutation has a value. */
  lemma Find(s: seq<nat>, v: nat) returns (j: nat)
    requires Perm(s) && v < |s|
    ensures j < |s| && s[j] == v
  {
    Pigeonhole(s, |s|);
    assert v in s;
    j :| 0 <= j < |s| && s[j] == v;
  }

  /** Every order that agrees with `s` from position `i` on is reached by some draws. */
  lemma {:induction false} DrawsReach(s: seq<nat>, t: seq<nat>, i: nat) returns (c: seq<nat>)
    requires Perm(s) && Perm(t) && i <= |s| == |t|
    requires forall k :: i <= k < |s| ==> s[k] == t[k]
    ensures |c| == |s| && Draws(c) && Shuffled(s, c, i) == t
    decreases i
  {
    hide Perm;
    if i <= 1 {
      c := seq(|s|, k => 0);
      OneLeft(s, t, i);
    } else {
      PermBelow(t, i - 1);
      var j := Find(s, t[i - 1]);
      FoundBelow(s, t, i, j);
      SwapKeepsPerm(s, i - 1, j);
      var rest := DrawsReach(Swap(s, i - 1, j), t, i - 1);
      c := rest[i - 1 := j];
      SameDraws(Swap(s, i - 1, j), rest, c, i - 1);
    }
  }

  lemma PermBelow(s: seq<nat>, i: nat)
    requires Perm(s) && i < |s|
    ensures s[i] < |s|
  {
  }

  lemma FoundBelow(s: seq<nat>, t: seq<nat>, i: nat, j: nat)
    requires Perm(t) && 0 < i <= |s| == |t| && j < |s| && s[j] == t[i - 1]
    requires forall k :: i <= k < |s| ==> s[k] == t[k]
    ensures j < i
  {
  }

  lemma OneLeft(s: seq<nat>, t: seq<nat>, i: nat)
    requires Perm(s) && Perm(t) && i <= 1 && i <= |s| == |t|
    requires forall k :: i <= k < |s| ==> s[k] == t[k]
    ensures s == t
  {
    if i == 1 {
      var j := Find(s, t[0]);
    }
  }

  /** Only the draws below `i` matter. */
  lemma {:induction false} SameDraws(s: seq<nat>, c: seq<nat>, d: seq<nat>, i: nat)
    requires i <= |s| == |c| == |d| && Draws(c) && Draws(d)
    requires forall k :: 0 <= k < i ==> c[k] == d[k]
    ensures Shuffled(s, c, i) == Shuffled(s, d, i)
    decreases i
  {
    if i > 1 {
      SameDraws(Swap(s, i - 1, c[i - 1]), c, d, i - 1);
    }
  }

  function Identity(n: nat): (r: seq<nat>)
    ensures |r| == n && forall i :: 0 <= i < n ==> r[i] == i
  {
    seq(n, i => i)
  }

  /** The shuffle is unbiased: every order of the nodes comes from exactly one sequence
      of draws, and every sequence of draws gives an order of the nodes. */
  lemma ShuffleIsBijective(n: nat, t: seq<nat>)
    requires |t| == n
    ensures Perm(t) <==> exists c: seq<nat> :: |c| == n && Draws(c) && Shuffled(Identity(n), c, n) == t
    ensures forall c: seq<nat>, d: seq<nat> ::
              |c| == |d| == n && Draws(c) && Draws(d) && Shuffled(Identity(n), c, n) == t == Shuffled(Identity(n), d, n)
              ==> c == d
  {
    if Perm(t) {
      var c := DrawsReach(Identity(n), t, n);
    }
    forall c: seq<nat> | |c| == n && Draws(c) ensures Perm(Shuffled(Identity(n), c, n)) {
      ShuffledIsPerm(Identity(n), c, n);
    }
    forall c: seq<nat>, d: seq<nat> |
      |c| == |d| == n && Draws(c) && Draws(d) && Shuffled(Identity(n), c, n) == t == Shuffled(Identity(n), d, n)
      ensures c == d
    {
      DrawsDetermined(Identity(n), c, d, n);
    }
  }

  /** The index array, filled and shuffled in place. */
  method Shuffle(indices: array<nat>, draws: seq<nat>)
    requires indices.Length > 0 && |draws| == indices.Length && Draws(draws)
    modifies indices
    ensures indices[..] == Shuffled(Identity(indices.Length), draws, indices.Length)
  {
    var n := indices.Length;
    for k := 0 to n
      invariant forall m :: 0 <= m < k ==> indices[m] == m
    {
      indices[k] := k;
    }
    assert indices[..] == Identity(n);
    var i := n - 1;
    while i > 0
      invariant 0 <= i < n
      invariant Shuffled(indices[..], draws, i + 1) == Shuffled(Identity(n), draws, n)
    {
      ghost var before := indices[..];
      var j := draws[i];
      indices[i], indices[j] := indices[j], indices[i];
      assert indices[..] == Swap(before, i, j);
      i := i - 1;
    }
  }

  // ----- The ring ---------------------------------------------------------------

  /** The address of node `k`. */
  function Address(base: nat, k: nat): nat {
    base + k * NODE_SIZE
  }

  /** The position after `i` on the ring. */
  function After(i: nat, n: nat): nat
    requires n > 0
  {
    (i + 1) % n
  }

  /** The first word of every node holds the address of the next node in order `p`. */
  ghost predicate Linked(p: seq<nat>, chase: seq<nat>, base: nat) {
    && |chase| == |p| && Perm(p)
    && forall i :: 0 <= i < |p| ==> chase[p[i]] == Address(base, p[After(i, |p|)])
  }

  lemma AfterIs(i: nat, n: nat)
    requires i < n
    ensures After(i, n) == if i + 1 == n then 0 else i + 1
  {
    if i + 1 < n { SmallMod(i + 1, n); }
  }

  lemma SmallMod(i: nat, n: nat)
    requires i < n
    ensures i % n == i
  {
  }

  /** Linking the nodes in the shuffled order. */
  method BuildRing(indices: array<nat>, chase: array<nat>, base: nat)
    requires indices != chase && indices.Length == chase.Length > 0 && Perm(indices[..])
    modifies chase
    ensures Linked(indices[..], chase[..], base)
  {
    var n := indices.Length;
    ghost var p := indices[..];
    hide Address;
    for i := 0 to n
      invariant indices[..] == p
      invariant forall k :: 0 <= k < i ==> chase[p[k]] == Address(base, p[After(k, n)])
    {
      AfterIs(i, n);
      chase[indices[i]] := Address(base, indices[After(i, n)]);
      assert forall k :: 0 <= k < i ==> p[k] != p[i];
    }
  }

  /** Where the chase is after some hops; an address outside the nodes leads nowhere. */
  function Follow(chase: seq<nat>, base: nat, addr: nat, hops: nat): nat {
    if hops == 0 then addr else
      var a := Follow(chase, base, addr, hops - 1);
      if base <= a && (a - base) / NODE_SIZE < |chase| then chase[(a - base) / NODE_SIZE] else a
  }

  lemma NodeOfAddress(base: nat, k: nat)
    ensures base <= Address(base, k) && (Address(base, k) - base) / NODE_SIZE == k
  {
  }

  /** The ring position after some hops from position `j`. */
  function Around(j: nat, hops: nat, n: nat): (r: nat)
    requires j < n
    ensures r < n
  {
    if hops == 0 then j else
      var k := Around(j, hops - 1, n);
      if k + 1 == n then 0 else k + 1
  }

  lemma {:induction false} AroundIs(j: nat, hops: nat, n: nat)
    requires j < n && hops <= n
    ensures Around(j, hops, n) == if j + hops < n then j + hops else j + hops - n
  {
    if hops > 0 { AroundIs(j, hops - 1, n); }
  }

  /** The chase walks along the shuffled order. */
  lemma {:induction false} FollowRing(p: seq<nat>, chase: seq<nat>, base: nat, j: nat, hops: nat)
    requires Linked(p, chase, base) && j < |p|
    ensures Follow(chase, base, Address(base, p[j]), hops) == Address(base, p[Around(j, hops, |p|)])
  {
    if hops > 0 {
      hide Address;
      FollowRing(p, chase, base, j, hops - 1);
      var k := Around(j, hops - 1, |p|);
      NodeOfAddress(base, p[k]);
      AfterIs(k, |p|);
    }
  }

  /** The chase from `addr` is at node `k` within `hops` hops. */
  ghost predicate Visits(chase: seq<nat>, base: nat, addr: nat, hops: nat, k: nat) {
    exists h :: 0 <= h < hops && Follow(chase, base, addr, h) == Address(base, k)
  }

  /** From any node the links form one cycle through all nodes: the first n positions
      are distinct, every node is among them, and hop n is back at the start. */
  lemma OneCycle(p: seq<nat>, chase: seq<nat>, base: nat, start: nat)
    requires Linked(p, chase, base) && start < |p|
    ensures Follow(chase, base, Address(base, start), |p|) == Address(base, start)
    ensures forall h1, h2 :: 0 <= h1 < h2 < |p| ==>
              Follow(chase, base, Address(base, start), h1) != Follow(chase, base, Address(base, start), h2)
    ensures forall k: nat :: k < |p| ==> Visits(chase, base, Address(base, start), |p|, k)
  {
    hide Address;
    hide Follow;
    hide Around;
    var n, a := |p|, Address(base, start);
    var j := Find(p, start);
    AroundIs(j, n, n);
    FollowRing(p, chase, base, j, n);
    forall h1, h2 | 0 <= h1 < h2 < n ensures Follow(chase, base, a, h1) != Follow(chase, base, a, h2) {
      AroundIs(j, h1, n);
      AroundIs(j, h2, n);
      FollowRing(p, chase, base, j, h1);
      FollowRing(p, chase, base, j, h2);
      NodeOfAddress(base, p[Around(j, h1, n)]);
      NodeOfAddress(base, p[Around(j, h2, n)]);
    }
    forall k: nat | k < n ensures Visits(chase, base, a, n, k) {
      var i := Find(p, k);
      var h := if i >= j then i - j else i + n - j;
      AroundIs(j, h, n);
      FollowRing(p, chase, base, j, h);
      assert Follow(chase, base, a, h) == Address(base, k);
    }
  }

  /** Building the ring and chasing it, from the first node on. */
  method Chase(indices: array<nat>, chase: array<nat>, base: nat, draws: seq<nat>, iterations: nat)
    returns (current: nat)
    requires indices != chase && indices.Length == chase.Length == |draws| > 0 && Draws(draws)
    modifies indices, chase
    ensures indices[..] == Shuffled(Identity(indices.Length), draws, indices.Length)
    ensures Linked(indices[..], chase[..], base)
    ensures current == Follow(chase[..], base, base, iterations)
  {
    hide Address;
    hide After;
    hide Around;
    hide Shuffled;
    Shuffle(indices, draws);
    ShuffledIsPerm(Identity(indices.Length), draws, indices.Length);
    BuildRing(indices, chase, base);
    current := Walk(chase, base, indices[..], iterations);
  }

  /** The measurement loop. */
  method Walk(chase: array<nat>, base: nat, ghost p: seq<nat>, iterations: nat) returns (current: nat)
    requires Linked(p, chase[..], base) && p != []
    ensures current == Follow(chase[..], base, base, iterations)
  {
    hide Address;
    hide Around;
    hide Linked;
    current := base;
    for i := 0 to iterations
      invariant current == Follow(chase[..], base, base, i)
    {
      OnNode(p, chase[..], base, i);
      current := chase[(current - base) / NODE_SIZE];
    }
  }

  /** The chase never leaves the nodes. */
  lemma OnNode(p: seq<nat>, chase: seq<nat>, base: nat, hops: nat)
    requires Linked(p, chase, base) && p != []
    ensures base <= Follow(chase, base, base, hops)
    ensures 0 <= (Follow(chase, base, base, hops) - base) / NODE_SIZE < |chase|
  {
    hide Follow;
    hide Around;
    var j := Find(p, 0);
    FollowRing(p, chase, base, j, hops);
    NodeOfAddress(base, p[Around(j, hops, |p|)]);
    assert Address(base, 0) == base;
    hide Address;
  }
}
