/**
 The lock-free multi-producer, single-consumer queue of the RDMA simulation as
 a step system.  Every atomic load, store and exchange of `mpsc_enqueue` and
 `mpsc_dequeue` is one step; local branches belong to the step that loaded the
 value they test.  Steps of different threads interleave in any order.
 */
module MpscProtocol {
  import opened Wrappers

  /** A queue node: the sentinel embedded in the queue, or a caller's node. */
  datatype Node = Stub | Item(id: nat)

  /** The thread that has exchanged `tail` but not yet linked its node. */
  datatype Agent = ByProducer(p: nat) | ByConsumer

  /** Where a producer is inside `mpsc_enqueue`.  `pos` is the position of the
      node in the exchange history; no step tests it. */
  datatype ProducerPc =
    | Outside
    | Prepared(node: Node)
    | Swapped(node: Node, prev: Node, pos: nat)

  /** Where the consumer is inside `mpsc_dequeue`. */
  datatype ConsumerPc =
    | Idle
    | LoadedHead(h: Node)
    | SkipStub(next: Node)
    | Skipped(h: Node)
    | Advance(h: Node, next: Node)
    | CheckTail(h: Node)
    | ClearStub(h: Node)
    | SwapStub(h: Node)
    | LinkStub(h: Node, prev: Node, pos: nat)
    | Reload(h: Node)

  /** `next`, `head`, `tail` and the program counters are the program's state
      (a node missing from `next` holds NULL).  `hist` lists the nodes in the
      order in which `tail` was exchanged, `front` is the position of `head` in
      it, and `owner` maps each position not linked yet to the thread that is
      about to link it. */
  datatype State = State(
    next: map<Node, Option<Node>>,
    head: Node,
    tail: Node,
    prods: seq<ProducerPc>,
    cons: ConsumerPc,
    hist: seq<Node>,
    front: nat,
    owner: map<nat, Agent>)

  datatype Step = Begin(p: nat, node: Node) | Swap(p: nat) | Link(p: nat) | Consume

  /** What a consumer step hands to the caller of `mpsc_dequeue`. */
  datatype Outcome = Pending | ReturnedNull | Returned(node: Node)

  function Next(s: State, n: Node): Option<Node> {
    if n in s.next then s.next[n] else None
  }

  /** `mpsc_init`, with `n` producers outside the queue. */
  function Init(n: nat): State {
    State(map[Stub := None], Stub, Stub, seq(n, i => Outside), Idle, [Stub], 0, map[])
  }

  /** The node is not between `head` and `tail`. */
  ghost predicate Absent(s: State, n: Node) {
    forall k :: s.front <= k < |s.hist| ==> s.hist[k] != n
  }

  /** A caller owns `node`: it is not in the queue and nobody is about to insert it. */
  ghost predicate Enabled(s: State, step: Step) {
    match step
    case Begin(p, node) =>
      p < |s.prods| && s.prods[p].Outside? && node.Item? && Absent(s, node)
      && forall q :: 0 <= q < |s.prods| ==> s.prods[q] != Prepared(node)
    case Swap(p) => p < |s.prods| && s.prods[p].Prepared?
    case Link(p) => p < |s.prods| && s.prods[p].Swapped?
    case Consume => true
  }

  /** Store NULL into `node->next`. */
  function ApplyBegin(s: State, p: nat, node: Node): State
    requires p < |s.prods|
  {
    s.(next := s.next[node := None], prods := s.prods[p := Prepared(node)])
  }

  /** Exchange `tail`. */
  function ApplySwap(s: State, p: nat): State
    requires p < |s.prods| && s.prods[p].Prepared?
  {
    var n := s.prods[p].node;
    s.(tail := n,
       prods := s.prods[p := Swapped(n, s.tail, |s.hist|)],
       hist := s.hist + [n],
       owner := s.owner[|s.hist| := ByProducer(p)])
  }

  /** Link the previous tail to the node and return from `mpsc_enqueue`. */
  function ApplyLink(s: State, p: nat): State
    requires p < |s.prods| && s.prods[p].Swapped?
  {
    var pc := s.prods[p];
    s.(next := s.next[pc.prev := Some(pc.node)],
       prods := s.prods[p := Outside],
       owner := s.owner - {pc.pos})
  }

  /** After loading `h->next` for a real node: advance, or look at `tail`. */
  function Decide(s: State, h: Node): ConsumerPc {
    match Next(s, h)
    case Some(m) => Advance(h, m)
    case None => CheckTail(h)
  }

  /** One step of `mpsc_dequeue`.  With `rearm` the last real node is made
      poppable by inserting the stub again; without it (the earlier version)
      the tail check ends the call. */
  function ApplyConsume(rearm: bool, s: State): State {
    match s.cons
    case Idle => s.(cons := LoadedHead(s.head))
    case LoadedHead(h) =>
      if h.Stub? then
        match Next(s, h) {
          case None => s.(cons := Idle)
          case Some(m) => s.(cons := SkipStub(m))
        }
      else s.(cons := Decide(s, h))
    case SkipStub(m) => s.(head := m, cons := Skipped(m), front := s.front + 1)
    case Skipped(h) => s.(cons := Decide(s, h))
    case Advance(h, m) => s.(head := m, cons := Idle, front := s.front + 1)
    case CheckTail(h) => s.(cons := if h == s.tail && rearm then ClearStub(h) else Idle)
    case ClearStub(h) => s.(next := s.next[Stub := None], cons := SwapStub(h))
    case SwapStub(h) =>
      s.(tail := Stub,
         cons := LinkStub(h, s.tail, |s.hist|),
         hist := s.hist + [Stub],
         owner := s.owner[|s.hist| := ByConsumer])
    case LinkStub(h, prev, pos) =>
      s.(next := s.next[prev := Some(Stub)], cons := Reload(h), owner := s.owner - {pos})
    case Reload(h) =>
      match Next(s, h) {
        case Some(m) => s.(cons := Advance(h, m))
        case None => s.(cons := Idle)
      }
  }

  /** What the consumer's next step returns from `mpsc_dequeue`, if it returns. */
  function ConsumeOutcome(rearm: bool, s: State): Outcome {
    match s.cons
    case LoadedHead(h) => if h.Stub? && Next(s, h).None? then ReturnedNull else Pending
    case Advance(h, _) => Returned(h)
    case CheckTail(h) => if h == s.tail && rearm then Pending else ReturnedNull
    case Reload(h) => if Next(s, h).None? then ReturnedNull else Pending
    case _ => Pending
  }

  function Apply(rearm: bool, s: State, step: Step): State
    requires Enabled(s, step)
  {
    match step
    case Begin(p, node) => ApplyBegin(s, p, node)
    case Swap(p) => ApplySwap(s, p)
    case Link(p) => ApplyLink(s, p)
    case Consume => ApplyConsume(rearm, s)
  }

  // ----- The invariant ------------------------------------------------------

  /** The node at position `k` points to its successor, or to nothing while the
      gap behind it is still open. */
  ghost predicate LinkOk(s: State, k: nat)
    requires k + 1 < |s.hist|
  {
    Next(s, s.hist[k]) == if k + 1 in s.owner then None else Some(s.hist[k + 1])
  }

  /** Positions from `front` on hold distinct nodes, and each adjacent pair is
      either linked or waiting for exactly the thread that owns the gap. */
  ghost predicate Chain(s: State) {
    && s.front < |s.hist|
    && s.head == s.hist[s.front]
    && s.tail == s.hist[|s.hist| - 1]
    && (forall i, j :: s.front <= i < j < |s.hist| ==> s.hist[i] != s.hist[j])
    && (forall k :: k in s.owner ==> s.front < k < |s.hist|)
    && (forall k :: s.front <= k < |s.hist| - 1 ==> LinkOk(s, k))
    && Next(s, s.tail) == None
  }

  /** The thread recorded for a gap is the one that is about to close it. */
  ghost predicate OwnerOk(s: State, k: nat)
    requires 0 < k < |s.hist| && k in s.owner
  {
    match s.owner[k]
    case ByProducer(p) => p < |s.prods| && s.prods[p] == Swapped(s.hist[k], s.hist[k - 1], k)
    case ByConsumer =>
      s.hist[k] == Stub && s.cons.LinkStub? && s.cons.prev == s.hist[k - 1] && s.cons.pos == k
  }

  ghost predicate Owners(s: State)
    requires Chain(s)
  {
    forall k :: k in s.owner ==> OwnerOk(s, k)
  }

  /** A producer mid-insert owns its gap; one about to exchange holds a private,
      NULL-terminated node. */
  ghost predicate ProducerOk(s: State, p: nat)
    requires p < |s.prods|
  {
    match s.prods[p]
    case Outside => true
    case Prepared(n) => n.Item? && Absent(s, n) && Next(s, n) == None
    case Swapped(_, _, pos) => pos in s.owner && s.owner[pos] == ByProducer(p)
  }

  ghost predicate Producers(s: State) {
    && (forall p :: 0 <= p < |s.prods| ==> ProducerOk(s, p))
    && (forall p, q :: 0 <= p < q < |s.prods| && s.prods[p].Prepared? ==> s.prods[p] != s.prods[q])
  }

  /** `front + 1` exists, is linked, and holds `m`. */
  ghost predicate LinkedNext(s: State, m: Node) {
    s.front + 1 < |s.hist| && s.front + 1 !in s.owner && s.hist[s.front + 1] == m
  }

  ghost predicate Consumer(s: State) {
    match s.cons
    case Idle => true
    case LoadedHead(h) => h == s.head
    case SkipStub(m) => s.head == Stub && LinkedNext(s, m)
    case Advance(h, m) => h == s.head && h.Item? && LinkedNext(s, m)
    case Skipped(h) => h == s.head && h.Item?
    case CheckTail(h) => h == s.head && h.Item?
    case ClearStub(h) => h == s.head && h.Item? && Absent(s, Stub)
    case SwapStub(h) => h == s.head && h.Item? && Absent(s, Stub) && Next(s, Stub) == None
    case LinkStub(h, _, pos) => h == s.head && h.Item? && pos in s.owner && s.owner[pos] == ByConsumer
    case Reload(h) => h == s.head && h.Item? && s.front + 1 < |s.hist|
  }

  ghost predicate Inv(s: State) {
    Chain(s) && Owners(s) && Producers(s) && Consumer(s)
  }

  lemma InitInv(n: nat)
    ensures Inv(Init(n))
  {
  }

  lemma BeginKeepsInv(s: State, p: nat, node: Node)
    requires Inv(s) && Enabled(s, Begin(p, node))
    ensures Inv(ApplyBegin(s, p, node))
  {
    var t := ApplyBegin(s, p, node);
    forall k | t.front <= k < |t.hist| - 1 ensures LinkOk(t, k) { assert LinkOk(s, k); }
    forall k | k in t.owner ensures OwnerOk(t, k) { assert OwnerOk(s, k); }
    forall q | 0 <= q < |t.prods| ensures ProducerOk(t, q) {
      assert ProducerOk(s, q);
    }
  }

  /** Exchanging `tail` for a private node extends the chain by an open gap. */
  lemma AppendKeepsChain(s: State, t: State, n: Node, a: Agent)
    requires Chain(s) && Absent(s, n) && Next(s, n) == None
    requires t == s.(tail := n, hist := s.hist + [n], owner := s.owner[|s.hist| := a],
                     prods := t.prods, cons := t.cons)
    ensures Chain(t)
    ensures forall m :: Absent(s, m) && m != n ==> Absent(t, m)
  {
    forall k | t.front <= k < |t.hist| - 1 ensures LinkOk(t, k) {
      if k < |s.hist| - 1 { assert LinkOk(s, k); }
    }
  }

  /** Linking closes exactly one gap and writes a node that is still in the queue. */
  lemma LinkKeepsChain(s: State, t: State, k0: nat)
    requires Chain(s) && k0 in s.owner
    requires t == s.(next := s.next[s.hist[k0 - 1] := Some(s.hist[k0])], owner := s.owner - {k0},
                     prods := t.prods, cons := t.cons)
    ensures Chain(t)
    ensures forall m :: Absent(s, m) ==> Absent(t, m) && Next(t, m) == Next(s, m)
  {
    forall k | t.front <= k < |t.hist| - 1 ensures LinkOk(t, k) { assert LinkOk(s, k); }
  }

  lemma SwapKeepsInv(s: State, p: nat)
    requires Inv(s) && Enabled(s, Swap(p))
    ensures Inv(ApplySwap(s, p))
  {
    assert ProducerOk(s, p);
    AppendKeepsChain(s, ApplySwap(s, p), s.prods[p].node, ByProducer(p));
    SwapKeepsOwners(s, p);
    SwapKeepsProducers(s, p);
  }

  lemma SwapKeepsOwners(s: State, p: nat)
    requires Chain(s) && Owners(s) && Enabled(s, Swap(p)) && Chain(ApplySwap(s, p))
    ensures Owners(ApplySwap(s, p))
  {
    var t := ApplySwap(s, p);
    forall k | k in t.owner ensures OwnerOk(t, k) {
      if k in s.owner { assert OwnerOk(s, k); }
    }
  }

  lemma SwapKeepsProducers(s: State, p: nat)
    requires Chain(s) && Producers(s) && Enabled(s, Swap(p))
    ensures Producers(ApplySwap(s, p))
  {
    var t := ApplySwap(s, p);
    assert ProducerOk(s, p);
    forall q | 0 <= q < |t.prods| ensures ProducerOk(t, q) { assert ProducerOk(s, q); }
  }

  lemma LinkKeepsInv(s: State, p: nat)
    requires Inv(s) && Enabled(s, Link(p))
    ensures Inv(ApplyLink(s, p))
  {
    var t := ApplyLink(s, p);
    assert ProducerOk(s, p);
    var k0 := s.prods[p].pos;
    assert OwnerOk(s, k0);
    LinkKeepsChain(s, t, k0);
    LinkKeepsOwners(s, p, k0);
    LinkKeepsProducers(s, p, k0);
    LinkKeepsConsumer(s, p, k0);
  }

  lemma LinkKeepsConsumer(s: State, p: nat, k0: nat)
    requires Consumer(s) && Enabled(s, Link(p)) && s.prods[p].pos == k0
    requires k0 in s.owner && s.owner[k0] == ByProducer(p)
    requires forall m :: Absent(s, m) ==> Absent(ApplyLink(s, p), m) && Next(ApplyLink(s, p), m) == Next(s, m)
    ensures Consumer(ApplyLink(s, p))
  {
  }

  lemma LinkKeepsOwners(s: State, p: nat, k0: nat)
    requires Chain(s) && Owners(s) && Enabled(s, Link(p)) && Chain(ApplyLink(s, p))
    requires s.prods[p].pos == k0
    ensures Owners(ApplyLink(s, p))
  {
    var t := ApplyLink(s, p);
    forall k | k in t.owner ensures OwnerOk(t, k) { assert OwnerOk(s, k); }
  }

  lemma LinkKeepsProducers(s: State, p: nat, k0: nat)
    requires Producers(s) && Enabled(s, Link(p)) && s.prods[p].pos == k0
    requires k0 in s.owner && s.owner[k0] == ByProducer(p)
    requires forall m :: Absent(s, m) ==> Next(ApplyLink(s, p), m) == Next(s, m)
    ensures Producers(ApplyLink(s, p))
  {
    var t := ApplyLink(s, p);
    forall q | 0 <= q < |t.prods| ensures ProducerOk(t, q) { assert ProducerOk(s, q); }
  }

  /** What a consumer step must leave alone for the producers' part of the
      invariant to survive it. */
  ghost predicate ProducersUntouched(s: State, t: State) {
    && t.prods == s.prods
    && s.hist <= t.hist
    && (forall m: Node :: m.Item? && Absent(s, m) ==> Absent(t, m) && Next(t, m) == Next(s, m))
    && (forall k :: k in s.owner && s.owner[k].ByProducer? ==> k in t.owner && t.owner[k] == s.owner[k])
    && (forall k :: k in t.owner && t.owner[k].ByProducer? ==> k in s.owner && t.owner[k] == s.owner[k])
  }

  lemma UntouchedKeepsOwners(s: State, t: State)
    requires Chain(s) && Chain(t) && Owners(s) && ProducersUntouched(s, t)
    requires forall k :: k in t.owner && t.owner[k].ByConsumer? ==> OwnerOk(t, k)
    ensures Owners(t)
  {
    forall k | k in t.owner ensures OwnerOk(t, k) {
      if t.owner[k].ByProducer? { assert OwnerOk(s, k); }
    }
  }

  lemma UntouchedKeepsProducers(s: State, t: State)
    requires Producers(s) && ProducersUntouched(s, t)
    ensures Producers(t)
  {
    forall q | 0 <= q < |t.prods| ensures ProducerOk(t, q) { assert ProducerOk(s, q); }
  }

  /** If `head->next` is set it is the linked successor; if not, `head` is the
      tail or a producer has yet to link its successor. */
  lemma HeadNext(s: State)
    requires Chain(s)
    ensures match Next(s, s.head)
            case Some(m) => LinkedNext(s, m)
            case None => s.head == s.tail || s.front + 1 in s.owner
  {
    if s.front < |s.hist| - 1 { assert LinkOk(s, s.front); }
  }

  /** What every consumer step establishes. */
  ghost predicate ConsumerStepOk(s: State, t: State) {
    && Chain(t) && Consumer(t) && ProducersUntouched(s, t)
    && forall k :: k in t.owner && t.owner[k].ByConsumer? ==> OwnerOk(t, k)
  }

  lemma ConsumeKeepsInv(rearm: bool, s: State)
    requires Inv(s)
    ensures Inv(ApplyConsume(rearm, s))
  {
    hide Owners;
    hide Producers;
    hide Consumer;
    hide ProducersUntouched;
    ConsumeOk(rearm, s);
    UntouchedKeepsOwners(s, ApplyConsume(rearm, s));
    UntouchedKeepsProducers(s, ApplyConsume(rearm, s));
  }

  lemma ConsumeOk(rearm: bool, s: State)
    requires Chain(s) && Owners(s) && Consumer(s)
    ensures ConsumerStepOk(s, ApplyConsume(rearm, s))
  {
    if s.cons.SkipStub? || s.cons.Advance? {
      AdvanceOk(rearm, s);
    } else if s.cons.ClearStub? {
      ClearStubOk(rearm, s);
    } else if s.cons.SwapStub? {
      SwapStubOk(rearm, s);
    } else if s.cons.LinkStub? {
      LinkStubOk(rearm, s);
    } else {
      LoadKeepsConsumer(rearm, s);
      MoveOk(s, ApplyConsume(rearm, s).cons);
    }
  }

  /** Outside the link of its own stub the consumer owns no gap. */
  lemma ConsumerOwnsNoGap(s: State)
    requires Chain(s) && Owners(s) && !s.cons.LinkStub?
    ensures forall k :: k in s.owner ==> s.owner[k].ByProducer?
  {
    forall k | k in s.owner ensures s.owner[k].ByProducer? { assert OwnerOk(s, k); }
  }

  /** `head` moves past a node whose successor is linked. */
  lemma AdvanceOk(rearm: bool, s: State)
    requires Chain(s) && Owners(s) && Consumer(s) && (s.cons.SkipStub? || s.cons.Advance?)
    ensures ConsumerStepOk(s, ApplyConsume(rearm, s))
  {
    ConsumerOwnsNoGap(s);
    AdvanceKeepsChain(s, ApplyConsume(rearm, s));
  }

  lemma AdvanceKeepsChain(s: State, t: State)
    requires Chain(s) && s.front + 1 < |s.hist| && s.front + 1 !in s.owner
    requires t == s.(head := s.hist[s.front + 1], front := s.front + 1, cons := t.cons)
    ensures Chain(t) && t.head != s.head
    ensures forall m: Node :: Absent(s, m) ==> Absent(t, m)
    ensures forall m: Node :: Next(t, m) == Next(s, m)
  {
    forall k | t.front <= k < |t.hist| - 1 ensures LinkOk(t, k) { assert LinkOk(s, k); }
  }

  lemma ClearStubOk(rearm: bool, s: State)
    requires Chain(s) && Owners(s) && Consumer(s) && s.cons.ClearStub?
    ensures ConsumerStepOk(s, ApplyConsume(rearm, s))
  {
    var t := ApplyConsume(rearm, s);
    ConsumerOwnsNoGap(s);
    forall k | t.front <= k < |t.hist| - 1 ensures LinkOk(t, k) { assert LinkOk(s, k); }
  }

  lemma SwapStubOk(rearm: bool, s: State)
    requires Chain(s) && Owners(s) && Consumer(s) && s.cons.SwapStub?
    ensures ConsumerStepOk(s, ApplyConsume(rearm, s))
  {
    ConsumerOwnsNoGap(s);
    AppendKeepsChain(s, ApplyConsume(rearm, s), Stub, ByConsumer);
  }

  lemma LinkStubOk(rearm: bool, s: State)
    requires Chain(s) && Owners(s) && Consumer(s) && s.cons.LinkStub?
    ensures ConsumerStepOk(s, ApplyConsume(rearm, s))
  {
    var t := ApplyConsume(rearm, s);
    assert OwnerOk(s, s.cons.pos);
    LinkKeepsChain(s, t, s.cons.pos);
    forall k | k in t.owner ensures t.owner[k].ByProducer? { assert OwnerOk(s, k); }
  }

  /** A step that only moves the consumer's program counter. */
  lemma MoveOk(s: State, pc: ConsumerPc)
    requires Chain(s) && Owners(s) && Consumer(s.(cons := pc)) && !s.cons.LinkStub?
    ensures ConsumerStepOk(s, s.(cons := pc))
  {
    var t := s.(cons := pc);
    ConsumerOwnsNoGap(s);
    forall k | t.front <= k < |t.hist| - 1 ensures LinkOk(t, k) { assert LinkOk(s, k); }
  }

  /** The steps that only load and branch lead to a program counter whose
      assumptions hold. */
  lemma LoadKeepsConsumer(rearm: bool, s: State)
    requires Chain(s) && Consumer(s)
    requires s.cons.Idle? || s.cons.LoadedHead? || s.cons.Skipped? || s.cons.CheckTail? || s.cons.Reload?
    ensures Consumer(ApplyConsume(rearm, s))
  {
    HeadNext(s);
    if s.cons.CheckTail? && s.head == s.tail {
      assert s.front == |s.hist| - 1;
    }
  }

  lemma StepKeepsInv(rearm: bool, s: State, step: Step)
    requires Inv(s) && Enabled(s, step)
    ensures Inv(Apply(rearm, s, step))
  {
    match step
    case Begin(p, node) => BeginKeepsInv(s, p, node);
    case Swap(p) => SwapKeepsInv(s, p);
    case Link(p) => LinkKeepsInv(s, p);
    case Consume => ConsumeKeepsInv(rearm, s);
  }
}
