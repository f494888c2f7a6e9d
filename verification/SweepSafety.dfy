/** The invariant of a sweep and what it guarantees in every reachable state. */
module SweepSafety {
  import opened Wrappers
  import opened DistinctIds
  import opened Word64
  import opened Sums
  import Q = MpscProtocol
  import QT = MpscTheorems
  import G = StartGate
  import L = LinkTimeline
  import opened SweepModel

  // ----- The invariant, one coupling at a time --------------------------------

  /** A reader's node enters the queue once, at its own exchange of `tail`, and
      stays until the RNIC dequeues it. */
  ghost predicate NodeOk(q: Q.State, pc: ReaderPc, popped: seq<nat>, i: nat)
    requires i < |q.prods|
  {
    var absent := Q.Absent(q, Q.Item(i));
    match pc
    case Unborn => q.prods[i].Outside? && absent && i !in popped
    case Stamping => q.prods[i].Outside? && absent && i !in popped
    case Enqueuing =>
      (match q.prods[i] {
         case Outside => absent && i !in popped
         case Prepared(m) => m == Q.Item(i) && absent && i !in popped
         case Swapped(m, _, _) => m == Q.Item(i) && (absent <==> i in popped)
       })
    case _ => q.prods[i].Outside? && (absent <==> i in popped)
  }

  ghost predicate Nodes(n: nat, q: Q.State, readers: seq<ReaderPc>, popped: seq<nat>) {
    && |q.prods| == |readers| == n
    && Q.Inv(q)
    && (forall i :: 0 <= i < n ==> NodeOk(q, readers[i], popped, i))
    && (forall id: nat :: id >= n ==> Q.Absent(q, Q.Item(id)))
  }

  /** The RNIC handles the dequeued requests one at a time, in order, raising each
      response flag once. */
  ghost predicate Served(n: nat, rnic: RnicPc, cons: Q.ConsumerPc, done: nat, flags: seq<bool>,
                         popped: seq<nat>, nows: seq<real>, signals: seq<nat>)
  {
    && Distinct(popped, n)
    && |flags| == n
    && (forall i :: 0 <= i < n ==> (flags[i] <==> i in signals))
    && (!rnic.Dequeuing? ==> cons.Idle?)
    && match rnic
       case NotStarted => popped == signals == [] && |nows| == done == 0
       case Looping => popped == signals && |nows| == done == |signals|
       case Dequeuing => popped == signals && |nows| == done == |signals| && done < n
       case Finished => popped == signals && |nows| == done == |signals| && done >= n
       case Got(id) => popped == signals + [id] && |nows| == done == |signals|
       case Booking(id, now) => popped == signals + [id] && |nows| == done == |signals| && now >= 0.0
       case Signalling(id) => popped == signals + [id] && |nows| == |popped| && done == |signals|
       case Incrementing => popped == signals && |nows| == |signals| == done + 1
  }

  /** The link is the timeline of the booked requests, and each booked request
      carries its completion time as deadline. */
  ghost predicate Booked(n: nat, service: real, link: L.Link, expire: seq<real>, popped: seq<nat>, nows: seq<real>) {
    && |expire| == n && |nows| <= |popped|
    && Distinct(popped, n)
    && L.Stamps(nows, service)
    && link == L.Run(nows, service)
    && forall k :: 0 <= k < |nows| ==> expire[popped[k]] == L.Run(nows[..k + 1], service).ntime
  }

  /** A reader past its response has been signalled, and one past its deadline
      test has seen the clock reach the deadline. */
  ghost predicate Gated(n: nat, clock: real, expire: seq<real>, flags: seq<bool>, readers: seq<ReaderPc>) {
    && clock >= 0.0
    && |expire| == |flags| == |readers| == n
    && (forall i :: 0 <= i < n && PastResponse(readers[i]) ==> flags[i])
    && (forall i :: 0 <= i < n && PastDeadline(readers[i]) ==> clock >= expire[i])
  }

  predicate PastResponse(pc: ReaderPc) {
    !pc.Unborn? && !pc.Stamping? && !pc.Enqueuing? && !pc.Polling?
  }

  predicate PastDeadline(pc: ReaderPc) {
    PastResponse(pc) && !pc.Waiting?
  }

  function Created(n: nat, main: MainPc): nat {
    match main
    case StartRnic => 0
    case Creating(i) => i
    case _ => n
  }

  ghost predicate WaiterOk(pc: ReaderPc, w: G.WaiterPc) {
    match pc
    case Unborn => false
    case Gating => !w.Through?
    case _ => if PastDeadline(pc) then w.Through? else w.Away?
  }

  /** The gate's view of each thread agrees with the thread's own position. */
  ghost predicate Gates(n: nat, g: G.State, readers: seq<ReaderPc>, main: MainPc) {
    && G.Inv(g) && g.total == n && !g.opener.Lowering?
    && |readers| == n
    && |g.waiters| == Created(n, main) <= n
    && (forall i :: 0 <= i < |g.waiters| ==> WaiterOk(readers[i], g.waiters[i]))
    && (forall i :: |g.waiters| <= i < n ==> readers[i].Unborn?)
    && match main
       case StartRnic => g.opener.Outside?
       case Creating(_) => g.opener.Outside?
       case Opening => !g.opener.Done?
       case _ => g.opener.Done?
  }

  /** The main thread has joined what it says it has joined. */
  ghost predicate Joined(n: nat, readers: seq<ReaderPc>, rnic: RnicPc, main: MainPc) {
    && |readers| == n
    && (main.StartRnic? <==> rnic.NotStarted?)
    && (main.JoinReaders? ==> main.i <= n && forall i :: 0 <= i < main.i ==> readers[i].Exited?)
    && (main.JoinRnic? || main.Done? ==> forall i :: 0 <= i < n ==> readers[i].Exited?)
    && (main.Done? ==> rnic.Finished?)
  }

  /** What reader `i` has counted and summed over its first `blk` blocks. */
  function LocalFail(cfg: Config, i: nat, blk: nat): nat {
    if blk == 0 then 0 else
      var f := LocalFail(cfg, i, blk - 1);
      if cfg.blockOk(i, blk - 1) then f else Add64(f, 1)
  }

  function LocalSum(cfg: Config, i: nat, blk: nat): nat {
    if blk == 0 then 0 else Add64(LocalSum(cfg, i, blk - 1), cfg.blockSum(i, blk - 1))
  }

  ghost predicate LocalOk(cfg: Config, pc: ReaderPc, i: nat) {
    match pc
    case Reading(blk, fail, sum) =>
      blk <= cfg.blocks && fail == LocalFail(cfg, i, blk) && sum == LocalSum(cfg, i, blk)
    case AddBlocks(count, fail, sum) =>
      count == cfg.blocks && fail == LocalFail(cfg, i, cfg.blocks) && sum == LocalSum(cfg, i, cfg.blocks)
    case AddFail(fail, sum) => fail == LocalFail(cfg, i, cfg.blocks) && sum == LocalSum(cfg, i, cfg.blocks)
    case AddSum(sum) => sum == LocalSum(cfg, i, cfg.blocks)
    case _ => true
  }

  /** What reader `i` has added to the three shared counters so far. */
  function BlocksAdded(cfg: Config, pc: ReaderPc): nat {
    if pc.AddFail? || pc.AddSum? || pc.Exited? then cfg.blocks else 0
  }

  function FailAdded(cfg: Config, pc: ReaderPc, i: nat): nat {
    if pc.AddSum? || pc.Exited? then LocalFail(cfg, i, cfg.blocks) else 0
  }

  function SumAdded(cfg: Config, pc: ReaderPc, i: nat): nat {
    if pc.Exited? then LocalSum(cfg, i, cfg.blocks) else 0
  }

  /** The shared counters hold the sum of what the readers have added, whatever
      the order of the additions. */
  ghost predicate Totals(cfg: Config, readers: seq<ReaderPc>, blocksRead: nat, verifyFail: nat, checksum: nat) {
    && |readers| == cfg.n
    && (forall i :: 0 <= i < cfg.n ==> LocalOk(cfg, readers[i], i))
    && blocksRead == SumTo(BlocksBy(cfg, readers), cfg.n) % WORD
    && verifyFail == SumTo(FailBy(cfg, readers), cfg.n) % WORD
    && checksum == SumTo(SumBy(cfg, readers), cfg.n) % WORD
  }

  function BlocksBy(cfg: Config, readers: seq<ReaderPc>): nat -> nat {
    (i: nat) => if i < |readers| then BlocksAdded(cfg, readers[i]) else 0
  }

  function FailBy(cfg: Config, readers: seq<ReaderPc>): nat -> nat {
    (i: nat) => if i < |readers| then FailAdded(cfg, readers[i], i) else 0
  }

  function SumBy(cfg: Config, readers: seq<ReaderPc>): nat -> nat {
    (i: nat) => if i < |readers| then SumAdded(cfg, readers[i], i) else 0
  }

  ghost predicate Inv(cfg: Config, s: State) {
    && Sized(cfg, s)
    && Nodes(cfg.n, s.q, s.readers, s.popped)
    && Served(cfg.n, s.rnic, s.q.cons, s.done, s.flags, s.popped, s.nows, s.signals)
    && Booked(cfg.n, cfg.service, s.link, s.expire, s.popped, s.nows)
    && Gated(cfg.n, s.clock, s.expire, s.flags, s.readers)
    && Gates(cfg.n, s.g, s.readers, s.main)
    && Joined(cfg.n, s.readers, s.rnic, s.main)
    && Totals(cfg, s.readers, s.blocksRead, s.verifyFail, s.checksum)
  }

  lemma InitInv(cfg: Config, clock: real, spurious: nat)
    requires cfg.service > 0.0 && clock >= 0.0
    ensures Inv(cfg, Init(cfg, clock, spurious))
  {
    var s := Init(cfg, clock, spurious);
    Q.InitInv(cfg.n);
    G.InitInv(cfg.n);
    assert Nodes(cfg.n, s.q, s.readers, s.popped);
    SumToZero(BlocksBy(cfg, s.readers), cfg.n);
    SumToZero(FailBy(cfg, s.readers), cfg.n);
    SumToZero(SumBy(cfg, s.readers), cfg.n);
  }

  // ----- Queue steps ----------------------------------------------------------

  lemma PreparedIsOwn(n: nat, q: Q.State, readers: seq<ReaderPc>, popped: seq<nat>, i: nat)
    requires Nodes(n, q, readers, popped) && i < n && readers[i].Enqueuing?
    ensures q.prods[i].Outside? ==> Q.Enabled(q, Q.Begin(i, Q.Item(i)))
    ensures q.prods[i].Prepared? ==> q.prods[i].node == Q.Item(i)
  {
    assert NodeOk(q, readers[i], popped, i);
    forall p | 0 <= p < |q.prods| && p != i ensures q.prods[p] != Q.Prepared(Q.Item(i)) {
      assert NodeOk(q, readers[p], popped, p);
    }
  }

  /** A reader's step inside `mpsc_enqueue`. */
  lemma EnqueueKeepsNodes(n: nat, q: Q.State, readers: seq<ReaderPc>, popped: seq<nat>, i: nat, step: Q.Step)
    requires Nodes(n, q, readers, popped) && i < n && readers[i].Enqueuing?
    requires step == match q.prods[i] {
                       case Outside => Q.Begin(i, Q.Item(i))
                       case Prepared(_) => Q.Swap(i)
                       case Swapped(_, _, _) => Q.Link(i)
                     }
    ensures Q.Enabled(q, step)
    ensures var r := if step.Link? then readers[i := Polling] else readers;
            Nodes(n, Q.Apply(true, q, step), r, popped)
    ensures Q.Apply(true, q, step).cons == q.cons
  {
    PreparedIsOwn(n, q, readers, popped, i);
    var t := Q.Apply(true, q, step);
    var r := if step.Link? then readers[i := Polling] else readers;
    hide Q.Inv;
    hide Q.Absent;
    Q.StepKeepsInv(true, q, step);
    forall k | 0 <= k < n ensures NodeOk(t, r[k], popped, k) {
      assert NodeOk(q, readers[k], popped, k);
      assert NodeOk(q, readers[i], popped, i);
      QT.StepMembership(true, q, step, Q.Item(k));
    }
    forall id: nat | id >= n ensures Q.Absent(t, Q.Item(id)) {
      assert NodeOk(q, readers[i], popped, i);
      QT.StepMembership(true, q, step, Q.Item(id));
    }
  }

  /** A step of the RNIC inside `mpsc_dequeue`. */
  lemma DequeueKeepsNodes(n: nat, q: Q.State, readers: seq<ReaderPc>, popped: seq<nat>)
    requires Nodes(n, q, readers, popped)
    ensures match Q.ConsumeOutcome(true, q)
            case Returned(node) =>
              node.Item? && node.id < n && node.id !in popped
              && Nodes(n, Q.ApplyConsume(true, q), readers, popped + [node.id])
            case _ => Nodes(n, Q.ApplyConsume(true, q), readers, popped)
    ensures !Q.ConsumeOutcome(true, q).Pending? ==> Q.ApplyConsume(true, q).cons.Idle?
    ensures Q.ApplyConsume(true, q).prods == q.prods
  {
    hide Q.Inv;
    hide Q.Absent;
    hide Q.Apply;
    hide Q.ApplyConsume;
    hide Q.ConsumeOutcome;
    hide Q.Enabled;
    hide QT.EventOf;
    var t := Q.ApplyConsume(true, q);
    var o := Q.ConsumeOutcome(true, q);
    ConsumeFacts(q);
    Q.StepKeepsInv(true, q, Q.Consume);
    var popped' := popped;
    if o.Returned? {
      QT.StepMembership(true, q, Q.Consume, Q.Item(0));
      var id := o.node.id;
      popped' := popped + [id];
      assert id < n;
      assert NodeOk(q, readers[id], popped, id);
    }
    forall k | 0 <= k < n ensures NodeOk(t, readers[k], popped', k) {
      DequeueKeepsNode(q, readers[k], popped, k);
    }
    forall id: nat | id >= n ensures Q.Absent(t, Q.Item(id)) {
      QT.StepMembership(true, q, Q.Consume, Q.Item(id));
    }
  }

  lemma DequeueKeepsNode(q: Q.State, pc: ReaderPc, popped: seq<nat>, k: nat)
    requires Q.Inv(q) && k < |q.prods| && NodeOk(q, pc, popped, k)
    ensures var t := Q.ApplyConsume(true, q);
            k < |t.prods|
            && match Q.ConsumeOutcome(true, q)
               case Returned(node) => node.Item? ==> NodeOk(t, pc, popped + [node.id], k)
               case _ => NodeOk(t, pc, popped, k)
  {
    hide Q.Inv;
    hide Q.Absent;
    hide Q.Apply;
    hide Q.ApplyConsume;
    hide Q.ConsumeOutcome;
    hide Q.Enabled;
    hide QT.EventOf;
    ConsumeFacts(q);
    QT.StepMembership(true, q, Q.Consume, Q.Item(k));
  }

  lemma ConsumeFacts(q: Q.State)
    ensures Q.Enabled(q, Q.Consume) && Q.Apply(true, q, Q.Consume) == Q.ApplyConsume(true, q)
    ensures Q.ApplyConsume(true, q).prods == q.prods
    ensures !Q.ConsumeOutcome(true, q).Pending? ==> Q.ApplyConsume(true, q).cons.Idle?
    ensures QT.EventOf(true, q, Q.Consume)
            == match Q.ConsumeOutcome(true, q) { case Returned(node) => QT.Removed(node) case _ => QT.Silent }
  {
  }

  lemma DistinctAppend(ids: seq<nat>, n: nat, id: nat)
    requires Distinct(ids, n) && id < n && id !in ids
    ensures Distinct(ids + [id], n)
  {
  }

  // ----- RNIC steps -----------------------------------------------------------

  lemma RnicKeepsServed(cfg: Config, s: State)
    requires Inv(cfg, s) && Enabled(cfg, s, Rnic)
    ensures var t := ApplyRnic(cfg, s);
            Served(cfg.n, t.rnic, t.q.cons, t.done, t.flags, t.popped, t.nows, t.signals)
  {
    if s.rnic.Dequeuing? {
      DequeueKeepsServed(cfg, s);
    } else {
      hide Nodes;
      hide Booked;
      hide Gates;
      hide Totals;
      assert s.clock >= 0.0;
      ServeKeepsServed(cfg, s);
    }
  }

  lemma DequeueKeepsServed(cfg: Config, s: State)
    requires Inv(cfg, s) && s.rnic.Dequeuing?
    ensures var t := ApplyRnic(cfg, s);
            Served(cfg.n, t.rnic, t.q.cons, t.done, t.flags, t.popped, t.nows, t.signals)
  {
    hide Nodes;
    hide Booked;
    hide Gated;
    hide Gates;
    hide Totals;
    hide Q.ApplyConsume;
    hide Q.ConsumeOutcome;
    DequeueKeepsNodes(cfg.n, s.q, s.readers, s.popped);
    var t := ApplyRnic(cfg, s);
    if t.rnic.Got? {
      DistinctAppend(s.popped, cfg.n, t.rnic.id);
    }
  }

  lemma ServeKeepsServed(cfg: Config, s: State)
    requires Sized(cfg, s) && Enabled(cfg, s, Rnic) && !s.rnic.Dequeuing? && s.clock >= 0.0
    requires Served(cfg.n, s.rnic, s.q.cons, s.done, s.flags, s.popped, s.nows, s.signals)
    ensures var t := ApplyRnic(cfg, s);
            Served(cfg.n, t.rnic, t.q.cons, t.done, t.flags, t.popped, t.nows, t.signals)
  {
  }

  lemma RnicKeepsBooked(cfg: Config, s: State)
    requires Inv(cfg, s) && Enabled(cfg, s, Rnic)
    ensures var t := ApplyRnic(cfg, s);
            Booked(cfg.n, cfg.service, t.link, t.expire, t.popped, t.nows)
  {
    hide Nodes;
    hide Gated;
    hide Gates;
    hide Joined;
    hide Totals;
    hide Q.ApplyConsume;
    var t := ApplyRnic(cfg, s);
    if s.rnic.Dequeuing? {
      RnicKeepsServed(cfg, s);
    } else if s.rnic.Booking? {
      BookingKeepsBooked(cfg.n, cfg.service, s.link, s.expire, s.popped, s.nows, s.rnic.id, s.rnic.now);
    }
  }

  lemma BookingKeepsBooked(n: nat, service: real, link: L.Link, expire: seq<real>, popped: seq<nat>,
                           nows: seq<real>, id: nat, now: real)
    requires Booked(n, service, link, expire, popped, nows) && now >= 0.0
    requires |popped| == |nows| + 1 && popped[|nows|] == id
    ensures id < n
    ensures var link' := L.Book(link, now, service);
            Booked(n, service, link', expire[id := link'.ntime], popped, nows + [now])
  {
    var nows' := nows + [now];
    assert nows'[..|nows|] == nows;
    assert nows'[..|nows| + 1] == nows';
    var expire' := expire[id := L.Book(link, now, service).ntime];
    forall k | 0 <= k < |nows| ensures expire'[popped[k]] == L.Run(nows'[..k + 1], service).ntime {
      assert nows'[..k + 1] == nows[..k + 1];
    }
  }

  lemma RnicKeepsGated(cfg: Config, s: State)
    requires Inv(cfg, s) && Enabled(cfg, s, Rnic)
    ensures var t := ApplyRnic(cfg, s); Gated(cfg.n, t.clock, t.expire, t.flags, t.readers)
  {
    hide Nodes;
    hide Booked;
    hide Gates;
    hide Totals;
    if s.rnic.Booking? {
      var id := s.rnic.id;
      assert s.popped[|s.signals|] == id;
      forall k | 0 <= k < |s.signals| ensures s.signals[k] != id { assert s.popped[k] == s.signals[k]; }
    }
  }

  lemma RnicKeepsInv(cfg: Config, s: State)
    requires Inv(cfg, s) && Enabled(cfg, s, Rnic)
    ensures Inv(cfg, ApplyRnic(cfg, s))
  {
    hide Nodes;
    hide Served;
    hide Booked;
    hide Gated;
    hide Gates;
    hide Totals;
    hide Q.ApplyConsume;
    hide Q.ConsumeOutcome;
    RnicKeepsServed(cfg, s);
    RnicKeepsBooked(cfg, s);
    RnicKeepsGated(cfg, s);
    DequeueKeepsNodes(cfg.n, s.q, s.readers, s.popped);
  }

  // ----- Reader steps ---------------------------------------------------------

  predicate Enqueued(pc: ReaderPc) {
    !pc.Unborn? && !pc.Stamping? && !pc.Enqueuing?
  }

  /** Moving a reader between two positions that the queue does not distinguish. */
  lemma MoveKeepsNodes(n: nat, q: Q.State, readers: seq<ReaderPc>, popped: seq<nat>, i: nat, pc: ReaderPc)
    requires Nodes(n, q, readers, popped) && i < n
    requires || (readers[i].Stamping? && pc.Enqueuing?)
             || (readers[i].Unborn? && pc.Stamping?)
             || (Enqueued(readers[i]) && Enqueued(pc))
    ensures Nodes(n, q, readers[i := pc], popped)
  {
    hide Q.Inv;
    hide Q.Absent;
    var r := readers[i := pc];
    forall k | 0 <= k < n ensures NodeOk(q, r[k], popped, k) {
      assert NodeOk(q, readers[k], popped, k);
    }
  }

  lemma MoveKeepsTotals(cfg: Config, readers: seq<ReaderPc>, b: nat, f: nat, c: nat, i: nat, pc: ReaderPc)
    requires Totals(cfg, readers, b, f, c) && i < cfg.n && LocalOk(cfg, pc, i)
    requires BlocksAdded(cfg, pc) == BlocksAdded(cfg, readers[i])
    requires FailAdded(cfg, pc, i) == FailAdded(cfg, readers[i], i)
    requires SumAdded(cfg, pc, i) == SumAdded(cfg, readers[i], i)
    ensures Totals(cfg, readers[i := pc], b, f, c)
  {
    var r := readers[i := pc];
    SumToSame(BlocksBy(cfg, readers), BlocksBy(cfg, r), cfg.n);
    SumToSame(FailBy(cfg, readers), FailBy(cfg, r), cfg.n);
    SumToSame(SumBy(cfg, readers), SumBy(cfg, r), cfg.n);
  }

  /** The three atomic additions of a finished reader. */
  lemma AddBlocksKeepsTotals(cfg: Config, readers: seq<ReaderPc>, b: nat, f: nat, c: nat, i: nat)
    requires Totals(cfg, readers, b, f, c) && i < cfg.n && readers[i].AddBlocks?
    ensures var pc := readers[i];
            Totals(cfg, readers[i := AddFail(pc.fail, pc.sum)], Add64(b, pc.count), f, c)
  {
    hide Add64;
    hide SumTo;
    hide LocalFail;
    hide LocalSum;
    assert LocalOk(cfg, readers[i], i);
    var r := readers[i := AddFail(readers[i].fail, readers[i].sum)];
    SumToChange(BlocksBy(cfg, readers), BlocksBy(cfg, r), cfg.n, i);
    AddTo(b, SumTo(BlocksBy(cfg, readers), cfg.n), readers[i].count);
    SumToSame(FailBy(cfg, readers), FailBy(cfg, r), cfg.n);
    SumToSame(SumBy(cfg, readers), SumBy(cfg, r), cfg.n);
  }

  lemma AddFailKeepsTotals(cfg: Config, readers: seq<ReaderPc>, b: nat, f: nat, c: nat, i: nat)
    requires Totals(cfg, readers, b, f, c) && i < cfg.n && readers[i].AddFail?
    ensures var pc := readers[i];
            Totals(cfg, readers[i := AddSum(pc.sum)], b, Add64(f, pc.fail), c)
  {
    hide Add64;
    hide SumTo;
    hide LocalFail;
    hide LocalSum;
    assert LocalOk(cfg, readers[i], i);
    var r := readers[i := AddSum(readers[i].sum)];
    SumToSame(BlocksBy(cfg, readers), BlocksBy(cfg, r), cfg.n);
    SumToChange(FailBy(cfg, readers), FailBy(cfg, r), cfg.n, i);
    AddTo(f, SumTo(FailBy(cfg, readers), cfg.n), readers[i].fail);
    SumToSame(SumBy(cfg, readers), SumBy(cfg, r), cfg.n);
  }

  lemma AddSumKeepsTotals(cfg: Config, readers: seq<ReaderPc>, b: nat, f: nat, c: nat, i: nat)
    requires Totals(cfg, readers, b, f, c) && i < cfg.n && readers[i].AddSum?
    ensures Totals(cfg, readers[i := Exited], b, f, Add64(c, readers[i].sum))
  {
    hide Add64;
    hide SumTo;
    hide LocalFail;
    hide LocalSum;
    assert LocalOk(cfg, readers[i], i);
    var r := readers[i := Exited];
    SumToSame(BlocksBy(cfg, readers), BlocksBy(cfg, r), cfg.n);
    SumToSame(FailBy(cfg, readers), FailBy(cfg, r), cfg.n);
    SumToChange(SumBy(cfg, readers), SumBy(cfg, r), cfg.n, i);
    AddTo(c, SumTo(SumBy(cfg, readers), cfg.n), readers[i].sum);
  }

  /** A reader's move outside the gate that its gate position allows. */
  lemma MoveKeepsGates(n: nat, g: G.State, readers: seq<ReaderPc>, main: MainPc, i: nat, pc: ReaderPc)
    requires Gates(n, g, readers, main) && i < |g.waiters| && WaiterOk(pc, g.waiters[i])
    ensures Gates(n, g, readers[i := pc], main)
  {
    hide G.Inv;
  }

  lemma WaitKeepsGates(n: nat, g: G.State, readers: seq<ReaderPc>, main: MainPc, i: nat)
    requires Gates(n, g, readers, main) && i < n && readers[i].Gating? && G.Enabled(g, G.Wait(i))
    ensures var g' := G.ApplyWait(g, i);
            && |g'.waiters| == |g.waiters| && i < |g'.waiters|
            && Gates(n, g', if g'.waiters[i].Through? then readers[i := Reading(0, 0, 0)] else readers, main)
  {
    G.StepKeepsInv(g, G.Wait(i));
    hide G.Inv;
  }

  lemma ReaderKeepsGates(cfg: Config, s: State, i: nat)
    requires Inv(cfg, s) && Enabled(cfg, s, Reader(i))
    ensures var t := ApplyReader(cfg, s, i); Gates(cfg.n, t.g, t.readers, t.main)
  {
    hide Nodes;
    hide Served;
    hide Booked;
    hide Gated;
    hide Totals;
    if s.readers[i].Gating? {
      WaitKeepsGates(cfg.n, s.g, s.readers, s.main, i);
    } else {
      assert WaiterOk(s.readers[i], s.g.waiters[i]);
      hide Gates;
      var pc := ApplyReader(cfg, s, i).readers[i];
      MoveKeepsGates(cfg.n, s.g, s.readers, s.main, i, pc);
    }
  }

  lemma ReaderKeepsNodes(cfg: Config, s: State, i: nat)
    requires Inv(cfg, s) && Enabled(cfg, s, Reader(i))
    ensures var t := ApplyReader(cfg, s, i);
            Nodes(cfg.n, t.q, t.readers, t.popped) && t.q.cons == s.q.cons
  {
    hide Nodes;
    hide Served;
    hide Booked;
    hide Gated;
    hide Gates;
    hide Totals;
    if s.readers[i].Enqueuing? {
      EnqueueKeepsNodes(cfg.n, s.q, s.readers, s.popped, i, EnqueueStep(s, i));
    } else {
      var pc := ApplyReader(cfg, s, i).readers[i];
      MoveKeepsNodes(cfg.n, s.q, s.readers, s.popped, i, pc);
    }
  }

  lemma ReaderKeepsTotals(cfg: Config, s: State, i: nat)
    requires Inv(cfg, s) && Enabled(cfg, s, Reader(i))
    ensures var t := ApplyReader(cfg, s, i);
            Totals(cfg, t.readers, t.blocksRead, t.verifyFail, t.checksum)
  {
    hide Nodes;
    hide Served;
    hide Booked;
    hide Gated;
    hide Gates;
    assert LocalOk(cfg, s.readers[i], i);
    hide Totals;
    if s.readers[i].AddBlocks? {
      AddBlocksKeepsTotals(cfg, s.readers, s.blocksRead, s.verifyFail, s.checksum, i);
    } else if s.readers[i].AddFail? {
      AddFailKeepsTotals(cfg, s.readers, s.blocksRead, s.verifyFail, s.checksum, i);
    } else if s.readers[i].AddSum? {
      AddSumKeepsTotals(cfg, s.readers, s.blocksRead, s.verifyFail, s.checksum, i);
    } else {
      var pc := ApplyReader(cfg, s, i).readers[i];
      MoveKeepsTotals(cfg, s.readers, s.blocksRead, s.verifyFail, s.checksum, i, pc);
    }
  }

  /** A reader stamps its request before the RNIC can book it. */
  lemma StampKeepsBooked(cfg: Config, s: State, i: nat)
    requires Inv(cfg, s) && i < cfg.n && s.readers[i].Stamping?
    ensures Booked(cfg.n, cfg.service, s.link, s.expire[i := s.clock], s.popped, s.nows)
  {
    assert NodeOk(s.q, s.readers[i], s.popped, i);
    hide Nodes;
  }

  lemma ReaderKeepsGated(cfg: Config, s: State, i: nat)
    requires Sized(cfg, s) && Gated(cfg.n, s.clock, s.expire, s.flags, s.readers)
    requires Enabled(cfg, s, Reader(i)) && (s.readers[i].Gating? ==> i < |s.g.waiters|)
    ensures var t := ApplyReader(cfg, s, i); Gated(cfg.n, t.clock, t.expire, t.flags, t.readers)
  {
  }

  lemma ReaderKeepsInv(cfg: Config, s: State, i: nat)
    requires Inv(cfg, s) && Enabled(cfg, s, Reader(i))
    ensures Inv(cfg, ApplyReader(cfg, s, i))
  {
    hide Nodes;
    hide Served;
    hide Booked;
    hide Gated;
    hide Gates;
    hide Totals;
    ReaderKeepsNodes(cfg, s, i);
    if s.readers[i].Stamping? { StampKeepsBooked(cfg, s, i); }
    ReaderKeepsGated(cfg, s, i);
    ReaderKeepsGates(cfg, s, i);
    ReaderKeepsTotals(cfg, s, i);
  }

  // ----- Main, clock and spurious wakeups -------------------------------------

  lemma MainKeepsGates(cfg: Config, s: State)
    requires Inv(cfg, s) && Enabled(cfg, s, Main)
    ensures var t := ApplyMain(cfg, s); Gates(cfg.n, t.g, t.readers, t.main)
  {
    hide Served;
    hide Booked;
    hide Gated;
    hide Totals;
    hide Nodes;
    hide Joined;
    hide G.Inv;
    if s.main.Creating? && s.main.i < cfg.n {
      G.StepKeepsInv(s.g, G.Create);
    } else if s.main.Opening? {
      G.StepKeepsInv(s.g, G.Open);
    }
  }

  lemma MainKeepsReaders(cfg: Config, s: State)
    requires Inv(cfg, s) && Enabled(cfg, s, Main)
    ensures var t := ApplyMain(cfg, s);
            && Nodes(cfg.n, t.q, t.readers, t.popped)
            && Gated(cfg.n, t.clock, t.expire, t.flags, t.readers)
            && Totals(cfg, t.readers, t.blocksRead, t.verifyFail, t.checksum)
  {
    hide Nodes;
    hide Served;
    hide Booked;
    hide Totals;
    if s.main.Creating? && s.main.i < cfg.n {
      MoveKeepsNodes(cfg.n, s.q, s.readers, s.popped, s.main.i, Stamping);
      MoveKeepsTotals(cfg, s.readers, s.blocksRead, s.verifyFail, s.checksum, s.main.i, Stamping);
    }
  }

  lemma MainKeepsInv(cfg: Config, s: State)
    requires Inv(cfg, s) && Enabled(cfg, s, Main)
    ensures Inv(cfg, ApplyMain(cfg, s))
  {
    hide Nodes;
    hide Booked;
    hide Gated;
    hide Gates;
    hide Totals;
    MainKeepsGates(cfg, s);
    MainKeepsReaders(cfg, s);
  }

  lemma SpuriousKeepsInv(cfg: Config, s: State, th: G.Thread)
    requires Inv(cfg, s) && Enabled(cfg, s, Spurious(th))
    ensures Inv(cfg, ApplySpurious(s, th))
  {
    hide Nodes;
    hide Served;
    hide Booked;
    hide Gated;
    hide Totals;
    G.StepKeepsInv(s.g, G.Spurious(th));
    hide G.Inv;
    assert Gates(cfg.n, ApplySpurious(s, th).g, s.readers, s.main);
  }

  /** Every step of every thread keeps the invariant. */
  lemma StepKeepsInv(cfg: Config, s: State, a: Action)
    requires Inv(cfg, s) && Enabled(cfg, s, a)
    ensures Inv(cfg, Apply(cfg, s, a))
  {
    match a
    case Reader(i) => ReaderKeepsInv(cfg, s, i);
    case Rnic => RnicKeepsInv(cfg, s);
    case Main => MainKeepsInv(cfg, s);
    case Tick(clock) =>
      hide Nodes;
      hide Booked;
      hide Gates;
      hide Totals;
    case Spurious(t) => SpuriousKeepsInv(cfg, s, t);
  }
}
