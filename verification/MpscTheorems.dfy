/**
 What every interleaving of the queue's steps guarantees: first-in first-out
 delivery, safe reuse of returned nodes, honest NULL returns, and draining.
 */
module MpscTheorems {
  import opened Wrappers
  import opened MpscProtocol

  // ----- Executions ---------------------------------------------------------

  ghost predicate StepAt(rearm: bool, ex: seq<State>, steps: seq<Step>, i: nat)
    requires i < |steps| && i + 1 < |ex|
  {
    Enabled(ex[i], steps[i]) && ex[i + 1] == Apply(rearm, ex[i], steps[i])
  }

  /** `ex` lists the states of a run from `mpsc_init` that takes `steps`. */
  ghost predicate Execution(rearm: bool, ex: seq<State>, steps: seq<Step>) {
    && |ex| == |steps| + 1
    && ex[0] == Init(|ex[0].prods|)
    && forall i :: 0 <= i < |steps| ==> StepAt(rearm, ex, steps, i)
  }

  lemma {:induction false} ReachableInv(rearm: bool, ex: seq<State>, steps: seq<Step>, i: nat)
    requires Execution(rearm, ex, steps) && i < |ex|
    ensures Inv(ex[i])
  {
    if i == 0 {
      InitInv(|ex[0].prods|);
    } else {
      ReachableInv(rearm, ex, steps, i - 1);
      assert StepAt(rearm, ex, steps, i - 1);
      StepKeepsInv(rearm, ex[i - 1], steps[i - 1]);
    }
  }

  // ----- First in, first out ------------------------------------------------

  /** The caller's nodes in a sequence of nodes. */
  function Items(nodes: seq<Node>): seq<Node> {
    if nodes == [] then []
    else Items(nodes[..|nodes| - 1]) + if nodes[|nodes| - 1].Stub? then [] else [nodes[|nodes| - 1]]
  }

  lemma ItemsAppend(nodes: seq<Node>, n: Node)
    ensures Items(nodes + [n]) == Items(nodes) + if n.Stub? then [] else [n]
  {
    assert (nodes + [n])[..|nodes|] == nodes;
  }

  lemma {:induction false} ItemsPrepend(n: Node, nodes: seq<Node>)
    ensures Items([n] + nodes) == (if n.Stub? then [] else [n]) + Items(nodes)
  {
    if nodes == [] {
      assert [n] + nodes == [] + [n];
      ItemsAppend([], n);
    } else {
      var init, last := nodes[..|nodes| - 1], nodes[|nodes| - 1];
      assert [n] + nodes == ([n] + init) + [last];
      ItemsAppend([n] + init, last);
      ItemsPrepend(n, init);
    }
  }

  /** The abstract queue: nodes exchanged into `tail` and not yet returned. */
  ghost function Contents(s: State): seq<Node> {
    if s.front <= |s.hist| then Items(s.hist[s.front..]) else []
  }

  datatype Event = Silent | Inserted(node: Node) | Removed(node: Node)

  /** The abstract effect of a step: an insertion takes effect at the exchange
      of `tail`, a removal at the store of `head`. */
  function EventOf(rearm: bool, s: State, step: Step): Event {
    match step
    case Swap(p) => if p < |s.prods| && s.prods[p].Prepared? then Inserted(s.prods[p].node) else Silent
    case Consume =>
      var o := ConsumeOutcome(rearm, s);
      if o.Returned? then Removed(o.node) else Silent
    case _ => Silent
  }

  /** One step of an abstract first-in first-out queue of caller nodes. */
  ghost predicate FifoStep(c: seq<Node>, e: Event, c': seq<Node>) {
    match e
    case Silent => c' == c
    case Inserted(n) => n.Item? && c' == c + [n]
    case Removed(n) => n.Item? && c == [n] + c'
  }

  /** Every step of every thread is a step of a first-in first-out queue. */
  lemma StepRefinesFifo(rearm: bool, s: State, step: Step)
    requires Inv(s) && Enabled(s, step)
    ensures Inv(Apply(rearm, s, step))
    ensures FifoStep(Contents(s), EventOf(rearm, s, step), Contents(Apply(rearm, s, step)))
  {
    StepKeepsInv(rearm, s, step);
    var t := Apply(rearm, s, step);
    match step {
      case Swap(p) =>
        assert ProducerOk(s, p);
        AppendContents(s, t, s.prods[p].node);
      case Consume => ConsumeRefinesFifo(rearm, s);
      case _ =>
    }
  }

  lemma AppendContents(s: State, t: State, n: Node)
    requires s.front <= |s.hist| && t.front == s.front && t.hist == s.hist + [n]
    ensures Contents(t) == Contents(s) + if n.Stub? then [] else [n]
  {
    assert t.hist[t.front..] == s.hist[s.front..] + [n];
    ItemsAppend(s.hist[s.front..], n);
  }

  lemma ConsumeRefinesFifo(rearm: bool, s: State)
    requires Chain(s) && Consumer(s)
    ensures match ConsumeOutcome(rearm, s)
            case Returned(n) => n.Item? && Contents(s) == [n] + Contents(ApplyConsume(rearm, s))
            case _ => Contents(ApplyConsume(rearm, s)) == Contents(s)
  {
    if s.cons.SkipStub? || s.cons.Advance? {
      AdvanceContents(s, ApplyConsume(rearm, s));
    } else if s.cons.SwapStub? {
      AppendContents(s, ApplyConsume(rearm, s), Stub);
    }
  }

  lemma AdvanceContents(s: State, t: State)
    requires s.front < |s.hist| && t.front == s.front + 1 && t.hist == s.hist
    ensures Contents(s) == (if s.hist[s.front].Stub? then [] else [s.hist[s.front]]) + Contents(t)
  {
    assert s.hist[s.front..] == [s.hist[s.front]] + t.hist[t.front..];
    ItemsPrepend(s.hist[s.front], t.hist[t.front..]);
  }

  /** The inserted nodes among the events, in order. */
  function InsertedIn(events: seq<Event>): seq<Node> {
    if events == [] then [] else
      var e := events[|events| - 1];
      InsertedIn(events[..|events| - 1]) + if e.Inserted? then [e.node] else []
  }

  /** The removed nodes among the events, in order. */
  function RemovedIn(events: seq<Event>): seq<Node> {
    if events == [] then [] else
      var e := events[|events| - 1];
      RemovedIn(events[..|events| - 1]) + if e.Removed? then [e.node] else []
  }

  lemma {:induction false} FifoRun(contents: seq<seq<Node>>, events: seq<Event>)
    requires |contents| == |events| + 1
    requires forall i :: 0 <= i < |events| ==> FifoStep(contents[i], events[i], contents[i + 1])
    ensures RemovedIn(events) + contents[|events|] == contents[0] + InsertedIn(events)
    ensures Stub !in RemovedIn(events)
  {
    if events != [] {
      var n := |events| - 1;
      var init := events[..n];
      var before := contents[..n + 1];
      forall i | 0 <= i < |init| ensures FifoStep(before[i], init[i], before[i + 1]) {
        assert FifoStep(contents[i], events[i], contents[i + 1]);
      }
      FifoRun(before, init);
      var r, c, c' := RemovedIn(init), contents[n], contents[n + 1];
      assert FifoStep(c, events[n], c');
      match events[n]
      case Silent => assert r + [] == r && InsertedIn(init) + [] == InsertedIn(init);
      case Inserted(x) => assert r + [] == r && r + (c + [x]) == (r + c) + [x];
      case Removed(x) => assert (r + [x]) + c' == r + ([x] + c');
    }
  }

  /** The abstract events of the first `k` steps. */
  function Events(rearm: bool, ex: seq<State>, steps: seq<Step>, k: nat): (r: seq<Event>)
    requires k <= |steps| <= |ex|
    ensures |r| == k
  {
    seq(k, i requires 0 <= i < k => EventOf(rearm, ex[i], steps[i]))
  }

  lemma EventsPrefix(rearm: bool, ex: seq<State>, steps: seq<Step>, k: nat)
    requires 0 < k <= |steps| <= |ex|
    ensures var e := EventOf(rearm, ex[k - 1], steps[k - 1]);
            && InsertedBy(rearm, ex, steps, k)
               == InsertedBy(rearm, ex, steps, k - 1) + (if e.Inserted? then [e.node] else [])
            && ReturnedBy(rearm, ex, steps, k)
               == ReturnedBy(rearm, ex, steps, k - 1) + (if e.Removed? then [e.node] else [])
  {
    assert Events(rearm, ex, steps, k)[..k - 1] == Events(rearm, ex, steps, k - 1);
  }

  /** The nodes whose exchange of `tail` is among the first `k` steps, in order. */
  function InsertedBy(rearm: bool, ex: seq<State>, steps: seq<Step>, k: nat): seq<Node>
    requires k <= |steps| <= |ex|
  {
    InsertedIn(Events(rearm, ex, steps, k))
  }

  /** The nodes `mpsc_dequeue` returned during the first `k` steps, in order. */
  function ReturnedBy(rearm: bool, ex: seq<State>, steps: seq<Step>, k: nat): seq<Node>
    requires k <= |steps| <= |ex|
  {
    RemovedIn(Events(rearm, ex, steps, k))
  }

  /** In every interleaving the returned nodes are exactly the inserted ones, in
      exchange order and without gaps, up to those still queued; the stub is
      never returned. */
  lemma FifoDelivery(rearm: bool, ex: seq<State>, steps: seq<Step>, k: nat)
    requires Execution(rearm, ex, steps) && k <= |steps|
    ensures ReturnedBy(rearm, ex, steps, k) + Contents(ex[k]) == InsertedBy(rearm, ex, steps, k)
    ensures Stub !in ReturnedBy(rearm, ex, steps, k)
  {
    var events := Events(rearm, ex, steps, k);
    var contents := seq(k + 1, i requires 0 <= i <= k => Contents(ex[i]));
    forall i | 0 <= i < k ensures FifoStep(contents[i], events[i], contents[i + 1]) {
      ReachableInv(rearm, ex, steps, i);
      assert StepAt(rearm, ex, steps, i);
      StepRefinesFifo(rearm, ex[i], steps[i]);
    }
    FifoRun(contents, events);
    StartsEmpty(ex[0]);
  }

  lemma StartsEmpty(s: State)
    requires s == Init(|s.prods|)
    ensures Contents(s) == []
  {
    assert s.hist[0..] == [] + [Stub];
    ItemsAppend([], Stub);
  }

  /** If no node is inserted twice, no node is returned twice. */
  lemma ReturnedAtMostOnce(rearm: bool, ex: seq<State>, steps: seq<Step>, k: nat)
    requires Execution(rearm, ex, steps) && k <= |steps|
    requires var ins := InsertedBy(rearm, ex, steps, k);
             forall i, j :: 0 <= i < j < |ins| ==> ins[i] != ins[j]
    ensures var ret := ReturnedBy(rearm, ex, steps, k);
            forall i, j :: 0 <= i < j < |ret| ==> ret[i] != ret[j]
  {
    FifoDelivery(rearm, ex, steps, k);
    var ins, ret := InsertedBy(rearm, ex, steps, k), ReturnedBy(rearm, ex, steps, k);
    assert forall i :: 0 <= i < |ret| ==> ret[i] == ins[i];
  }

  /** A node is in the queue from its exchange of `tail` until it is returned. */
  lemma StepMembership(rearm: bool, s: State, step: Step, m: Node)
    requires Inv(s) && Enabled(s, step) && m.Item?
    ensures var t := Apply(rearm, s, step);
            match EventOf(rearm, s, step)
            case Silent => Absent(t, m) <==> Absent(s, m)
            case Inserted(n) => n.Item? && Absent(s, n) && (Absent(t, m) <==> Absent(s, m) && m != n)
            case Removed(n) => n.Item? && !Absent(s, n) && (Absent(t, m) <==> Absent(s, m) || m == n)
  {
    var t := Apply(rearm, s, step);
    if step.Swap? {
      assert ProducerOk(s, step.p);
      SwapMembership(s, t, s.prods[step.p].node, m);
    } else if step.Consume? {
      hide Inv;
      ConsumeMembership(rearm, s, m);
    }
  }

  lemma ConsumeMembership(rearm: bool, s: State, m: Node)
    requires Inv(s) && m.Item?
    ensures var o, t := ConsumeOutcome(rearm, s), ApplyConsume(rearm, s);
            if o.Returned? then o.node.Item? && !Absent(s, o.node) && (Absent(t, m) <==> Absent(s, m) || m == o.node)
            else Absent(t, m) <==> Absent(s, m)
  {
    hide Producers;
    hide Owners;
    var t := ApplyConsume(rearm, s);
    if s.cons.SkipStub? || s.cons.Advance? {
      AdvanceMembership(s, t, m);
      hide Chain;
      hide Absent;
    } else if s.cons.SwapStub? {
      SwapMembership(s, t, Stub, m);
      hide Chain;
      hide Absent;
    }
  }

  lemma SwapMembership(s: State, t: State, n: Node, m: Node)
    requires t.front == s.front <= |s.hist| && t.hist == s.hist + [n]
    ensures Absent(t, m) <==> Absent(s, m) && m != n
  {
    assert t.hist[|s.hist|] == n;
    if Absent(t, m) {
      forall k | s.front <= k < |s.hist| ensures s.hist[k] != m { assert t.hist[k] != m; }
    }
  }

  lemma AdvanceMembership(s: State, t: State, m: Node)
    requires Chain(s) && t.front == s.front + 1 && t.hist == s.hist
    ensures !Absent(s, s.head)
    ensures Absent(t, m) <==> Absent(s, m) || m == s.head
  {
  }

  // ----- Reclamation --------------------------------------------------------

  /** The nodes whose `next` field a step loads or stores. */
  function Touches(s: State, step: Step): set<Node> {
    match step
    case Begin(_, node) => {node}
    case Swap(_) => {}
    case Link(p) => if p < |s.prods| && s.prods[p].Swapped? then {s.prods[p].prev} else {}
    case Consume =>
      match s.cons
      case LoadedHead(h) => {h}
      case Skipped(h) => {h}
      case ClearStub(_) => {Stub}
      case LinkStub(_, prev, _) => {prev}
      case Reload(h) => {h}
      case _ => {}
  }

  /** Two states that differ at most in the `next` field of one node. */
  ghost predicate SameBut(s: State, t: State, n: Node) {
    s == t.(next := s.next) && forall m: Node :: m != n ==> Next(s, m) == Next(t, m)
  }

  /** That is all: a step changes no other `next` field, and depends on no other. */
  lemma TouchesAll(rearm: bool, s: State, step: Step, n: Node, v: Option<Node>)
    requires Enabled(s, step) && n !in Touches(s, step)
    ensures Next(Apply(rearm, s, step), n) == Next(s, n)
    ensures var s' := s.(next := s.next[n := v]);
            && Enabled(s', step)
            && SameBut(Apply(rearm, s', step), Apply(rearm, s, step), n)
            && (step.Consume? ==> ConsumeOutcome(rearm, s') == ConsumeOutcome(rearm, s))
  {
    match step
    case Consume => ConsumeTouchesAll(rearm, s, n, v);
    case _ =>
  }

  lemma ConsumeTouchesAll(rearm: bool, s: State, n: Node, v: Option<Node>)
    requires n !in Touches(s, Consume)
    ensures Next(ApplyConsume(rearm, s), n) == Next(s, n)
    ensures var s' := s.(next := s.next[n := v]);
            && SameBut(ApplyConsume(rearm, s'), ApplyConsume(rearm, s), n)
            && ConsumeOutcome(rearm, s') == ConsumeOutcome(rearm, s)
  {
    if s.cons.ClearStub? || s.cons.LinkStub? {
      StoreTouchesAll(rearm, s, n, v);
    } else {
      LoadTouchesAll(rearm, s, s.(next := s.next[n := v]), n);
    }
  }

  lemma StoreTouchesAll(rearm: bool, s: State, n: Node, v: Option<Node>)
    requires n !in Touches(s, Consume) && (s.cons.ClearStub? || s.cons.LinkStub?)
    ensures Next(ApplyConsume(rearm, s), n) == Next(s, n)
    ensures var s' := s.(next := s.next[n := v]);
            && SameBut(ApplyConsume(rearm, s'), ApplyConsume(rearm, s), n)
            && ConsumeOutcome(rearm, s') == ConsumeOutcome(rearm, s)
  {
  }

  lemma LoadTouchesAll(rearm: bool, s: State, s': State, n: Node)
    requires n !in Touches(s, Consume) && !s.cons.ClearStub? && !s.cons.LinkStub?
    requires s' == s.(next := s'.next) && forall m: Node :: m != n ==> Next(s', m) == Next(s, m)
    ensures ApplyConsume(rearm, s).next == s.next
    ensures ApplyConsume(rearm, s') == ApplyConsume(rearm, s).(next := s'.next)
    ensures ConsumeOutcome(rearm, s') == ConsumeOutcome(rearm, s)
  {
    hide Next;
    match s.cons
    case LoadedHead(h) => assert Next(s', h) == Next(s, h);
    case Skipped(h) => assert Next(s', h) == Next(s, h);
    case Reload(h) => assert Next(s', h) == Next(s, h);
    case _ =>
  }

  /** Neither the queue nor any thread inside it refers to the node. */
  ghost predicate Released(s: State, n: Node) {
    && n.Item? && Absent(s, n) && s.tail != n && s.head != n
    && forall p :: 0 <= p < |s.prods| ==>
         s.prods[p].Outside? || (s.prods[p].node != n && (s.prods[p].Swapped? ==> s.prods[p].prev != n))
  }

  /** A mid-insert producer refers only to two adjacent nodes still in the queue. */
  lemma SwappedInQueue(s: State, p: nat)
    requires Inv(s) && p < |s.prods| && s.prods[p].Swapped?
    ensures s.front < s.prods[p].pos < |s.hist|
    ensures s.prods[p].node == s.hist[s.prods[p].pos] && s.prods[p].prev == s.hist[s.prods[p].pos - 1]
  {
    assert ProducerOk(s, p);
    assert OwnerOk(s, s.prods[p].pos);
  }

  /** The moment `mpsc_dequeue` returns a node, the node is released. */
  lemma ReturnReleases(rearm: bool, s: State)
    requires Inv(s) && ConsumeOutcome(rearm, s).Returned?
    ensures Released(ApplyConsume(rearm, s), ConsumeOutcome(rearm, s).node)
  {
    var t := ApplyConsume(rearm, s);
    ConsumeKeepsInv(rearm, s);
    var n := s.head;
    assert Absent(t, n);
    forall p | 0 <= p < |t.prods| && !t.prods[p].Outside?
      ensures t.prods[p].node != n && (t.prods[p].Swapped? ==> t.prods[p].prev != n)
    {
      if t.prods[p].Swapped? {
        SwappedInQueue(t, p);
      } else {
        assert ProducerOk(s, p);
      }
    }
  }

  /** A released node stays released, untouched, until it is enqueued again. */
  lemma ReleasedStays(rearm: bool, s: State, step: Step, n: Node)
    requires Inv(s) && Enabled(s, step) && Released(s, n)
    requires step.Begin? ==> step.node != n
    ensures Released(Apply(rearm, s, step), n) && n !in Touches(s, step)
  {
    if step.Consume? {
      ReleasedStaysConsume(rearm, s, n);
    }
  }

  lemma ReleasedStaysConsume(rearm: bool, s: State, n: Node)
    requires Inv(s) && Released(s, n)
    ensures Released(ApplyConsume(rearm, s), n) && n !in Touches(s, Consume)
  {
    hide Producers;
    hide Owners;
    if s.cons.LinkStub? {
      ConsumerGapInQueue(s);
    }
  }

  /** The node the consumer is about to link its stub behind is in the queue. */
  lemma ConsumerGapInQueue(s: State)
    requires Chain(s) && Owners(s) && Consumer(s) && s.cons.LinkStub?
    ensures s.front < s.cons.pos < |s.hist| && s.cons.prev == s.hist[s.cons.pos - 1]
  {
    assert OwnerOk(s, s.cons.pos);
  }

  /** Safe reclamation: once a node has been returned, no later step of any
      thread loads or stores its `next` until its owner enqueues it again. */
  lemma {:induction false} ReclamationSafe(rearm: bool, ex: seq<State>, steps: seq<Step>, i: nat, j: nat, n: Node)
    requires Execution(rearm, ex, steps) && i < j < |steps|
    requires EventOf(rearm, ex[i], steps[i]) == Removed(n)
    requires forall k :: i < k <= j && steps[k].Begin? ==> steps[k].node != n
    ensures n !in Touches(ex[j], steps[j]) && Released(ex[j], n)
  {
    ReachableInv(rearm, ex, steps, j);
    assert StepAt(rearm, ex, steps, j);
    ReleasedAt(rearm, ex, steps, i, j, n);
    ReleasedStays(rearm, ex[j], steps[j], n);
  }

  lemma {:induction false} ReleasedAt(rearm: bool, ex: seq<State>, steps: seq<Step>, i: nat, j: nat, n: Node)
    requires Execution(rearm, ex, steps) && i < j < |ex|
    requires EventOf(rearm, ex[i], steps[i]) == Removed(n)
    requires forall k :: i < k < j && steps[k].Begin? ==> steps[k].node != n
    ensures Released(ex[j], n)
  {
    ReachableInv(rearm, ex, steps, j - 1);
    assert StepAt(rearm, ex, steps, j - 1);
    hide Inv;
    hide Released;
    if j == i + 1 {
      ReturnReleases(rearm, ex[i]);
    } else {
      ReleasedAt(rearm, ex, steps, i, j - 1, n);
      ReleasedStays(rearm, ex[j - 1], steps[j - 1], n);
    }
  }

  /** The stub sits in the queue at most once, and while the consumer resets or
      re-inserts it, it is out of the queue and no producer can write its link. */
  lemma RearmIsSafe(s: State)
    requires Inv(s)
    ensures forall i, j :: s.front <= i < j < |s.hist| && s.hist[i] == Stub ==> s.hist[j] != Stub
    ensures s.cons.ClearStub? || s.cons.SwapStub? ==>
              Absent(s, Stub) && forall p :: 0 <= p < |s.prods| && s.prods[p].Swapped? ==> s.prods[p].prev != Stub
  {
    forall p | 0 <= p < |s.prods| && s.prods[p].Swapped?
      ensures s.front < s.prods[p].pos < |s.hist| && s.prods[p].prev == s.hist[s.prods[p].pos - 1]
    {
      SwappedInQueue(s, p);
    }
  }

  // ----- NULL returns -------------------------------------------------------

  /** No caller's node lies between `head` and `tail`. */
  ghost predicate NothingQueued(s: State) {
    forall k :: s.front <= k < |s.hist| ==> s.hist[k].Stub?
  }

  /** That is, the abstract queue is empty. */
  lemma {:induction false} NoItems(nodes: seq<Node>)
    ensures Items(nodes) == [] <==> forall k :: 0 <= k < |nodes| ==> nodes[k].Stub?
  {
    if nodes != [] {
      NoItems(nodes[..|nodes| - 1]);
    }
  }

  lemma NothingQueuedMeansEmpty(s: State)
    requires s.front <= |s.hist|
    ensures NothingQueued(s) <==> Contents(s) == []
  {
    var live := s.hist[s.front..];
    NoItems(live);
    if forall k :: 0 <= k < |live| ==> live[k].Stub? {
      forall k | s.front <= k < |s.hist| ensures s.hist[k].Stub? { assert live[k - s.front].Stub?; }
    }
  }

  /** Nothing is queued, or some producer has exchanged `tail` but not linked. */
  ghost predicate EmptyOrMidInsert(s: State) {
    NothingQueued(s) || exists p :: 0 <= p < |s.prods| && s.prods[p].Swapped?
  }

  /** If `head->next` is NULL and the consumer owns no gap, either `head` is the
      tail or a producer is mid-insert. */
  lemma NullNext(s: State)
    requires Inv(s) && Next(s, s.head) == None && !s.cons.LinkStub?
    ensures s.head == s.tail || EmptyOrMidInsert(s)
    ensures s.head == Stub ==> EmptyOrMidInsert(s)
  {
    HeadNext(s);
    if s.front + 1 in s.owner {
      ConsumerOwnsNoGap(s);
      assert OwnerOk(s, s.front + 1);
      assert s.prods[s.owner[s.front + 1].p].Swapped?;
    }
  }

  lemma SwapLeavesGap(s: State, p: nat)
    requires Enabled(s, Swap(p))
    ensures EmptyOrMidInsert(ApplySwap(s, p))
  {
    assert ApplySwap(s, p).prods[p].Swapped?;
  }

  /** While nothing is empty or mid-insert, a consumer about to compare `head`
      with `tail` will find them equal, and no call returns NULL. */
  lemma BusyStep(s: State, step: Step)
    requires Inv(s) && Enabled(s, step)
    requires !EmptyOrMidInsert(s) && !EmptyOrMidInsert(Apply(true, s, step))
    requires s.cons.CheckTail? ==> s.head == s.tail
    ensures var t := Apply(true, s, step); t.cons.CheckTail? ==> t.head == t.tail
    ensures step.Consume? ==> ConsumeOutcome(true, s) != ReturnedNull
  {
    if step.Swap? {
      SwapLeavesGap(s, step.p);
    } else if step.Consume? {
      BusyConsume(s);
    }
  }

  lemma BusyConsume(s: State)
    requires Inv(s) && !EmptyOrMidInsert(s)
    requires s.cons.CheckTail? ==> s.head == s.tail
    ensures var t := ApplyConsume(true, s); t.cons.CheckTail? ==> t.head == t.tail
    ensures ConsumeOutcome(true, s) != ReturnedNull
  {
    assert s.cons.Reload? ==> s.hist[s.front] != s.hist[|s.hist| - 1];
    if Next(s, s.head).None? && !s.cons.LinkStub? {
      NullNext(s);
    }
  }

  lemma {:induction false} BusyCall(ex: seq<State>, steps: seq<Step>, i: nat, j: nat)
    requires Execution(true, ex, steps) && i <= j < |ex|
    requires ex[i].cons.LoadedHead?
    requires forall k :: i <= k <= j ==> !EmptyOrMidInsert(ex[k])
    ensures ex[j].cons.CheckTail? ==> ex[j].head == ex[j].tail
  {
    if j > i {
      BusyCall(ex, steps, i, j - 1);
      ReachableInv(true, ex, steps, j - 1);
      assert StepAt(true, ex, steps, j - 1);
      assert !EmptyOrMidInsert(ex[j]);
      BusyStep(ex[j - 1], steps[j - 1]);
    }
  }

  /** NULL is never a false alarm: if the call that has just loaded `head` in
      state `i` returns NULL with step `j`, then at some moment in between
      nothing was queued or a producer was mid-insert. */
  lemma NullIsHonest(ex: seq<State>, steps: seq<Step>, i: nat, j: nat)
    requires Execution(true, ex, steps) && i <= j < |steps|
    requires ex[i].cons.LoadedHead? && steps[j].Consume?
    requires ConsumeOutcome(true, ex[j]) == ReturnedNull
    ensures exists k :: i <= k <= j && EmptyOrMidInsert(ex[k])
  {
    if forall k :: i <= k <= j ==> !EmptyOrMidInsert(ex[k]) {
      BusyCall(ex, steps, i, j);
      ReachableInv(true, ex, steps, j);
      BusyConsume(ex[j]);
    }
  }

  // ----- Draining -----------------------------------------------------------

  /** Consumer steps left, at most, before the call returns. */
  function CallRank(pc: ConsumerPc): nat {
    match pc
    case Idle => 11
    case LoadedHead(_) => 10
    case SkipStub(_) => 9
    case Skipped(_) => 8
    case CheckTail(_) => 7
    case ClearStub(_) => 6
    case SwapStub(_) => 5
    case LinkStub(_, _, _) => 4
    case Reload(_) => 3
    case Advance(_, _) => 2
  }

  /** Run the consumer alone until `mpsc_dequeue` returns.  The recursion ends
      because every call takes at most ten steps. */
  function RunCall(rearm: bool, s: State): (State, Outcome)
    decreases CallRank(s.cons)
  {
    var t, o := ApplyConsume(rearm, s), ConsumeOutcome(rearm, s);
    if o.Pending? then RunCall(rearm, t) else (t, o)
  }

  /** No producer is between its exchange and its link. */
  ghost predicate NoMidInsert(s: State) {
    forall p :: 0 <= p < |s.prods| ==> !s.prods[p].Swapped?
  }

  /** The consumer runs alone towards returning the oldest queued node. */
  ghost predicate Alone(s: State) {
    && Inv(s) && NoMidInsert(s)
    && (s.cons.CheckTail? ==> s.head == s.tail)
    && (s.cons.Idle? || s.cons.LoadedHead? || !NothingQueued(s))
  }

  lemma LoneStepKeepsAlone(s: State)
    requires Alone(s)
    ensures Alone(ApplyConsume(true, s))
    ensures ConsumeOutcome(true, s) == ReturnedNull <==> s.cons.LoadedHead? && NothingQueued(s)
  {
    ConsumeKeepsInv(true, s);
    if NothingQueued(s) {
      HeadNext(s);
    } else {
      LoneBusyStep(s);
    }
  }

  lemma LoneBusyStep(s: State)
    requires Alone(s) && !NothingQueued(s)
    ensures ConsumeOutcome(true, s) != ReturnedNull
    ensures var t := ApplyConsume(true, s);
            && (t.cons.CheckTail? ==> t.head == t.tail)
            && (t.cons.Idle? || t.cons.LoadedHead? || !NothingQueued(t))
  {
    assert s.cons.Reload? ==> s.hist[s.front] != s.hist[|s.hist| - 1];
    if Next(s, s.head).None? && !s.cons.LinkStub? {
      NullNext(s);
    }
    var k :| s.front <= k < |s.hist| && s.hist[k].Item?;
    var t := ApplyConsume(true, s);
    assert t.hist[k].Item?;
  }

  lemma {:induction false} LoneCallStaysAlone(s: State)
    requires Alone(s)
    ensures var (t, o) := RunCall(true, s); Alone(t) && t.cons.Idle?
    decreases CallRank(s.cons)
  {
    hide Alone;
    LoneStepKeepsAlone(s);
    if ConsumeOutcome(true, s).Pending? {
      LoneCallStaysAlone(ApplyConsume(true, s));
    }
  }

  /** Without a producer mid-insert a lone call returns the oldest queued node,
      and NULL only when nothing is queued. */
  lemma {:induction false} LoneCall(s: State)
    requires Alone(s)
    ensures var (t, o) := RunCall(true, s);
            && t.prods == s.prods
            && match o
               case Pending => false
               case ReturnedNull => Contents(t) == Contents(s) == []
               case Returned(n) => Contents(s) == [n] + Contents(t)
    decreases CallRank(s.cons)
  {
    hide Alone;
    hide Contents;
    LoneStepKeepsAlone(s);
    LoneStepContents(s);
    if ConsumeOutcome(true, s).Pending? {
      LoneCall(ApplyConsume(true, s));
    }
  }

  lemma LoneStepContents(s: State)
    requires Alone(s)
    ensures var (t, o) := (ApplyConsume(true, s), ConsumeOutcome(true, s));
            && t.prods == s.prods
            && match o
               case Pending => Contents(t) == Contents(s)
               case ReturnedNull => t.cons.Idle? && Contents(t) == Contents(s) == []
               case Returned(n) => t.cons.Idle? && Contents(s) == [n] + Contents(t)
  {
    ConsumeRefinesFifo(true, s);
    NothingQueuedMeansEmpty(s);
    LoneStepKeepsAlone(s);
  }

  /** The results of `n` calls in a row. */
  function Drain(rearm: bool, s: State, n: nat): seq<Outcome>
    decreases n
  {
    if n == 0 then [] else
      var (t, o) := RunCall(rearm, s);
      [o] + Drain(rearm, t, n - 1)
  }

  /** Draining a queue with no producer mid-insert returns every pending node,
      in order, and then NULL. */
  lemma {:induction false} DrainReturnsAll(s: State, n: nat)
    requires Inv(s) && NoMidInsert(s) && s.cons.Idle?
    ensures |Drain(true, s, n)| == n
    ensures forall i :: 0 <= i < n ==>
              Drain(true, s, n)[i] == if i < |Contents(s)| then Returned(Contents(s)[i]) else ReturnedNull
    decreases n
  {
    if n > 0 {
      LoneCall(s);
      LoneCallStaysAlone(s);
      DrainReturnsAll(RunCall(true, s).0, n - 1);
    }
  }

  // ----- The version without the re-armed stub --------------------------------

  /** Without the re-arm the stub is never inserted again. */
  ghost predicate NoRearmPc(pc: ConsumerPc) {
    !pc.ClearStub? && !pc.SwapStub? && !pc.LinkStub? && !pc.Reload?
  }

  lemma NoRearmStep(s: State, step: Step)
    requires Chain(s) && Consumer(s) && Enabled(s, step) && NoRearmPc(s.cons)
    ensures var t := Apply(false, s, step);
            && NoRearmPc(t.cons)
            && match EventOf(false, s, step)
               case Silent => t.hist == s.hist && (t.front == s.front || (t.front == s.front + 1 && s.head == Stub))
               case Inserted(n) => t.hist == s.hist + [n] && t.front == s.front
               case Removed(n) => t.hist == s.hist && t.front == s.front + 1 && n == s.hist[s.front] && n.Item?
  {
  }

  /** The history is the stub followed by the inserted nodes, and what has been
      returned is what lies before `head`. */
  lemma {:induction false} NoRearmHistory(ex: seq<State>, steps: seq<Step>, k: nat)
    requires Execution(false, ex, steps) && k <= |steps|
    ensures NoRearmPc(ex[k].cons) && ex[k].front < |ex[k].hist|
    ensures ex[k].hist == [Stub] + InsertedBy(false, ex, steps, k)
    ensures ReturnedBy(false, ex, steps, k) == ex[k].hist[1..if ex[k].front == 0 then 1 else ex[k].front]
    ensures forall i :: 0 < i < |ex[k].hist| ==> ex[k].hist[i].Item?
  {
    hide Inv;
    if k > 0 {
      NoRearmHistory(ex, steps, k - 1);
      NoRearmStepAt(ex, steps, k - 1);
      EventsPrefix(false, ex, steps, k);
      var s := ex[k - 1];
      if ex[k].front > s.front > 0 {
        assert ex[k].hist[1..s.front + 1] == s.hist[1..s.front] + [s.hist[s.front]];
      }
    }
  }

  lemma NoRearmStepAt(ex: seq<State>, steps: seq<Step>, i: nat)
    requires Execution(false, ex, steps) && i < |steps| && NoRearmPc(ex[i].cons)
    ensures var (s, t) := (ex[i], ex[i + 1]);
            && NoRearmPc(t.cons) && t.front < |t.hist|
            && match EventOf(false, s, steps[i])
               case Silent =>
                 t.hist == s.hist && (t.front == s.front || (t.front == s.front + 1 && s.hist[s.front] == Stub))
               case Inserted(n) => t.hist == s.hist + [n] && t.front == s.front && n.Item?
               case Removed(n) => t.hist == s.hist && t.front == s.front + 1 && n == s.hist[s.front] && n.Item?
  {
    ReachableInv(false, ex, steps, i);
    ReachableInv(false, ex, steps, i + 1);
    assert StepAt(false, ex, steps, i);
    NoRearmStep(ex[i], steps[i]);
    if steps[i].Swap? { assert ProducerOk(ex[i], steps[i].p); }
  }

  /** The earlier version always keeps its newest node: after any insertion, in
      every interleaving, at most n - 1 of n nodes have been returned. */
  lemma NoRearmLosesNewest(ex: seq<State>, steps: seq<Step>, k: nat)
    requires Execution(false, ex, steps) && k <= |steps|
    requires InsertedBy(false, ex, steps, k) != []
    ensures ReturnedBy(false, ex, steps, k) < InsertedBy(false, ex, steps, k)
  {
    NoRearmHistory(ex, steps, k);
    var s := ex[k];
    var ins := InsertedBy(false, ex, steps, k);
    var f := if s.front == 0 then 1 else s.front;
    assert s.hist[1..f] == ins[..f - 1];
  }
}
