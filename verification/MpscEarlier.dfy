/**
 What the queue of `test2-rdma.c`, without the re-armed stub, does return when its
 consumer runs alone: every pending node but the newest.
 */
module MpscEarlier {
  import opened Wrappers
  import opened MpscProtocol
  import opened MpscTheorems

  /** The states that version can reach: the stub is at most the oldest node. */
  ghost predicate Earlier(s: State) {
    && Inv(s) && NoRearmPc(s.cons)
    && forall i :: s.front < i < |s.hist| ==> s.hist[i].Item?
  }

  lemma ReachableEarlier(ex: seq<State>, steps: seq<Step>, k: nat)
    requires Execution(false, ex, steps) && k <= |steps|
    ensures Earlier(ex[k])
  {
    ReachableInv(false, ex, steps, k);
    NoRearmHistory(ex, steps, k);
  }

  lemma {:induction false} ItemsAll(nodes: seq<Node>)
    requires forall i :: 0 <= i < |nodes| ==> nodes[i].Item?
    ensures Items(nodes) == nodes
  {
    if nodes != [] {
      ItemsAll(nodes[..|nodes| - 1]);
    }
  }

  /** The queued nodes are those from `head` on, without the stub. */
  lemma EarlierContents(s: State)
    requires Earlier(s)
    ensures |Contents(s)| == |s.hist| - s.front - if s.head.Stub? then 1 else 0
  {
    var rest := s.hist[s.front + 1..];
    forall i | 0 <= i < |rest| ensures rest[i].Item? { assert rest[i] == s.hist[s.front + 1 + i]; }
    ItemsAll(rest);
    assert s.hist[s.front..] == [s.head] + rest;
    ItemsPrepend(s.head, rest);
  }

  /** The consumer of that version runs alone. */
  ghost predicate EarlierAlone(s: State) {
    && Earlier(s) && NoMidInsert(s)
    && (s.cons.CheckTail? ==> s.head == s.tail)
  }

  lemma GapHasProducer(s: State)
    requires Chain(s) && Owners(s) && !s.cons.LinkStub? && s.front + 1 < |s.hist|
    ensures s.front + 1 in s.owner ==> exists p :: 0 <= p < |s.prods| && s.prods[p].Swapped?
  {
    ConsumerOwnsNoGap(s);
    if s.front + 1 in s.owner {
      assert OwnerOk(s, s.front + 1);
      assert s.prods[s.owner[s.front + 1].p].Swapped?;
    }
  }

  /** With no gap open, `head->next` is NULL exactly when `head` is the tail. */
  lemma NoGap(s: State)
    requires Inv(s) && NoMidInsert(s) && !s.cons.LinkStub?
    ensures Next(s, s.head).None? <==> s.front == |s.hist| - 1
    ensures Next(s, s.head).None? ==> s.head == s.tail
  {
    HeadNext(s);
    if s.front + 1 < |s.hist| { GapHasProducer(s); }
  }

  lemma EarlierStep(s: State)
    requires EarlierAlone(s)
    ensures var (t, o) := (ApplyConsume(false, s), ConsumeOutcome(false, s));
            && EarlierAlone(t) && t.prods == s.prods
            && match o
               case Pending => Contents(t) == Contents(s)
               case ReturnedNull => t.cons.Idle? && Contents(t) == Contents(s) && |Contents(s)| <= 1
               case Returned(n) => t.cons.Idle? && Contents(s) == [n] + Contents(t) && |Contents(s)| >= 2
  {
    ConsumeRefinesFifo(false, s);
    ConsumeKeepsInv(false, s);
    EarlierContents(s);
    NoGap(s);
    hide Contents;
    hide Owners;
    hide Producers;
  }

  /** A lone call returns the oldest node if at least two are queued, and NULL, leaving
      the queue as it is, if not. */
  lemma {:induction false} EarlierCall(s: State)
    requires EarlierAlone(s)
    ensures var (t, o) := RunCall(false, s);
            && EarlierAlone(t) && t.cons.Idle? && t.prods == s.prods
            && if |Contents(s)| >= 2 then o == Returned(Contents(s)[0]) && Contents(t) == Contents(s)[1..]
               else o == ReturnedNull && Contents(t) == Contents(s)
    decreases CallRank(s.cons)
  {
    hide EarlierAlone;
    hide Contents;
    EarlierStep(s);
    if ConsumeOutcome(false, s).Pending? {
      EarlierCall(ApplyConsume(false, s));
    }
  }

  /** Draining it returns every pending node but the newest, in order, and then NULL. */
  lemma {:induction false} EarlierDrain(s: State, n: nat)
    requires EarlierAlone(s) && s.cons.Idle?
    ensures |Drain(false, s, n)| == n
    ensures forall i :: 0 <= i < n ==>
              Drain(false, s, n)[i] == if i + 1 < |Contents(s)| then Returned(Contents(s)[i]) else ReturnedNull
    decreases n
  {
    hide EarlierAlone;
    hide Contents;
    if n > 0 {
      EarlierCall(s);
      EarlierDrain(RunCall(false, s).0, n - 1);
    }
  }

  /** So from every reachable state with the consumer idle and no producer mid-insert. */
  lemma DrainKeepsNewest(ex: seq<State>, steps: seq<Step>, k: nat, n: nat)
    requires Execution(false, ex, steps) && k <= |steps|
    requires NoMidInsert(ex[k]) && ex[k].cons.Idle?
    ensures var (s, o) := RunCall(false, ex[k]);
            if |Contents(ex[k])| >= 2 then o == Returned(Contents(ex[k])[0]) else o == ReturnedNull
    ensures |Drain(false, ex[k], n)| == n
    ensures forall i :: 0 <= i < n ==>
              Drain(false, ex[k], n)[i]
              == if i + 1 < |Contents(ex[k])| then Returned(Contents(ex[k])[i]) else ReturnedNull
  {
    ReachableEarlier(ex, steps, k);
    EarlierCall(ex[k]);
    EarlierDrain(ex[k], n);
  }
}
