/**
 Progress of a sweep.  A lexicographic rank never grows; in every unfinished
 state some thread's step, or the passing of time, makes it smaller.  Hence no
 reachable state is stuck, and every fair run ends.
 */
module SweepLiveness {
  import opened Wrappers
  import opened DistinctIds
  import opened Sums
  import Q = MpscProtocol
  import QT = MpscTheorems
  import G = StartGate
  import L = LinkTimeline
  import opened SweepModel
  import opened SweepSafety
  import ST = SweepTheorems

  // ----- The rank -------------------------------------------------------------

  /** `enqueue`: work left until every node is linked.  `serve`: work left for the
      RNIC once that is so.  `wakeups`: broadcasts still to come.  `spurious`:
      spurious wakeups still to come.  `rest`: everything after the response. */
  datatype Rank = Rank(enqueue: nat, serve: nat, wakeups: nat, spurious: nat, rest: nat)

  predicate Less(r: Rank, r': Rank) {
    || r.enqueue < r'.enqueue
    || (r.enqueue == r'.enqueue &&
        (|| r.serve < r'.serve
         || (r.serve == r'.serve &&
             (|| r.wakeups < r'.wakeups
              || (r.wakeups == r'.wakeups &&
                  (|| r.spurious < r'.spurious
                   || (r.spurious == r'.spurious && r.rest < r'.rest)))))))
  }

  function Pre(pc: ReaderPc, p: Q.ProducerPc): nat {
    match pc
    case Unborn => 5
    case Stamping => 4
    case Enqueuing => (match p { case Outside => 3 case Prepared(_) => 2 case Swapped(_, _, _) => 1 })
    case _ => 0
  }

  function PreOf(readers: seq<ReaderPc>, prods: seq<Q.ProducerPc>): nat -> nat {
    (i: nat) => if i < |readers| && i < |prods| then Pre(readers[i], prods[i]) else 0
  }

  function MainPre(n: nat, main: MainPc): nat {
    match main
    case StartRnic => n + 2
    case Creating(i) => if i <= n then n + 1 - i else 1
    case _ => 0
  }

  function EnqueueRank(n: nat, readers: seq<ReaderPc>, prods: seq<Q.ProducerPc>, main: MainPc): nat {
    MainPre(n, main) + SumTo(PreOf(readers, prods), n)
  }

  /** A consumer that has loaded a NULL and finds `tail` moved on must start over. */
  function CallRank(cons: Q.ConsumerPc, tail: Q.Node): nat {
    if cons.CheckTail? && cons.h != tail then 14 else QT.CallRank(cons)
  }

  function RnicRank(n: nat, rnic: RnicPc, cons: Q.ConsumerPc, tail: Q.Node, popped: nat): nat {
    (if popped <= n then 20 * (n - popped) else 0) +
    match rnic
    case NotStarted => 18
    case Looping => 12
    case Dequeuing => CallRank(cons, tail)
    case Got(_) => 16
    case Booking(_, _) => 15
    case Signalling(_) => 14
    case Incrementing => 13
    case Finished => 0
  }

  function CallOf(waiters: seq<G.WaiterPc>): nat -> nat {
    (i: nat) =>
      if i < |waiters| && !waiters[i].Away? && !waiters[i].Counting? && !waiters[i].Waking? then 0 else 1
  }

  function WakeupRank(n: nat, waiters: seq<G.WaiterPc>, opener: G.OpenerPc): nat {
    SumTo(CallOf(waiters), n) + if opener.Exiting? || opener.Done? then 0 else 1
  }

  function WaiterRank(w: G.WaiterPc): nat {
    match w
    case Away => 8
    case Counting => 7
    case Waking => 6
    case Woken => 5
    case Testing => 4
    case Asleep => 3
    case Leaving => 2
    case Through => 1
  }

  function Post(blocks: nat, pc: ReaderPc, w: G.WaiterPc): nat {
    match pc
    case Reading(blk, _, _) => 4 + if blk <= blocks then blocks - blk else 0
    case AddBlocks(_, _, _) => 3
    case AddFail(_, _) => 2
    case AddSum(_) => 1
    case Exited => 0
    case Gating => blocks + 5 + WaiterRank(w)
    case Waiting => blocks + 20
    case _ => blocks + 21
  }

  function PostOf(blocks: nat, readers: seq<ReaderPc>, waiters: seq<G.WaiterPc>): nat -> nat {
    (i: nat) =>
      if i < |readers| then Post(blocks, readers[i], if i < |waiters| then waiters[i] else G.Away) else 0
  }

  function OpenerRank(opener: G.OpenerPc): nat {
    match opener
    case Outside => 9
    case Lowering => 8
    case Roused => 7
    case Checking => 6
    case Sleeping => 5
    case Announcing => 4
    case Exiting => 3
    case Done => 2
  }

  function MainPost(n: nat, main: MainPc, opener: G.OpenerPc): nat {
    match main
    case Opening => n + 3 + OpenerRank(opener)
    case JoinReaders(i) => if i <= n then n - i + 2 else 2
    case JoinRnic => 1
    case Done => 0
    case _ => n + 20
  }

  function RestRank(cfg: Config, readers: seq<ReaderPc>, g: G.State, main: MainPc): nat {
    SumTo(PostOf(cfg.blocks, readers, g.waiters), cfg.n) + MainPost(cfg.n, main, g.opener)
  }

  function RankOf(cfg: Config, s: State): Rank {
    var e := EnqueueRank(cfg.n, s.readers, s.q.prods, s.main);
    Rank(e,
         if e == 0 then RnicRank(cfg.n, s.rnic, s.q.cons, s.q.tail, |s.popped|) else 0,
         WakeupRank(cfg.n, s.g.waiters, s.g.opener),
         s.spurious,
         RestRank(cfg, s.readers, s.g, s.main))
  }

  // ----- Effect of each step on the rank ---------------------------------------

  /** A reader's step before its node is linked. */
  lemma PreStep(n: nat, readers: seq<ReaderPc>, prods: seq<Q.ProducerPc>, main: MainPc, i: nat,
                pc: ReaderPc, p: Q.ProducerPc)
    requires |readers| == |prods| == n && i < n
    requires Pre(pc, p) < Pre(readers[i], prods[i])
    ensures EnqueueRank(n, readers[i := pc], prods[i := p], main) < EnqueueRank(n, readers, prods, main)
  {
    SumToChange(PreOf(readers, prods), PreOf(readers[i := pc], prods[i := p]), n, i);
  }

  /** A reader's step after its node is linked. */
  lemma PostStep(cfg: Config, readers: seq<ReaderPc>, prods: seq<Q.ProducerPc>, main: MainPc, g: G.State,
                 i: nat, pc: ReaderPc)
    requires |readers| == |prods| == cfg.n && i < cfg.n
    requires Enqueued(readers[i]) && Enqueued(pc)
    requires Post(cfg.blocks, pc, if i < |g.waiters| then g.waiters[i] else G.Away)
           < Post(cfg.blocks, readers[i], if i < |g.waiters| then g.waiters[i] else G.Away)
    ensures EnqueueRank(cfg.n, readers[i := pc], prods, main) == EnqueueRank(cfg.n, readers, prods, main)
    ensures RestRank(cfg, readers[i := pc], g, main) < RestRank(cfg, readers, g, main)
  {
    SumToSame(PreOf(readers, prods), PreOf(readers[i := pc], prods), cfg.n);
    SumToChange(PostOf(cfg.blocks, readers, g.waiters), PostOf(cfg.blocks, readers[i := pc], g.waiters), cfg.n, i);
  }

  /** What one reader's gate step does to the others: a sleeper may be woken. */
  lemma WaitOthers(g: G.State, i: nat)
    requires i < |g.waiters|
    ensures var g' := G.ApplyWait(g, i);
            && |g'.waiters| == |g.waiters|
            && (forall j :: 0 <= j < |g.waiters| && j != i ==>
                  g'.waiters[j] == g.waiters[j] || (g.waiters[j].Asleep? && g'.waiters[j].Woken?))
            && (!g.waiters[i].Waking? ==> g'.waiters == g.waiters[i := g'.waiters[i]] && g'.opener == g.opener)
            && (g'.opener.Exiting? || g'.opener.Done? <==> g.opener.Exiting? || g.opener.Done?)
  {
  }

  lemma WaitOwn(g: G.State, i: nat)
    requires i < |g.waiters| && G.Enabled(g, G.Wait(i))
    ensures var (w, w') := (g.waiters[i], G.ApplyWait(g, i).waiters[i]);
            if w.Waking? then w'.Testing? else WaiterRank(w') < WaiterRank(w) && (w'.Waking? ==> w.Counting?)
    ensures var (w, w') := (g.waiters[i], G.ApplyWait(g, i).waiters[i]);
            w'.Away? || w'.Counting? || w'.Waking? ==> w.Away? || w.Counting? || w.Waking?
  {
  }

  lemma WaitWakeups(n: nat, g: G.State, i: nat)
    requires i < |g.waiters| <= n && G.Enabled(g, G.Wait(i))
    ensures var g' := G.ApplyWait(g, i);
            var (w, w') := (WakeupRank(n, g.waiters, g.opener), WakeupRank(n, g'.waiters, g'.opener));
            w' <= w && (g.waiters[i].Waking? ==> w' < w)
  {
    WaitOthers(g, i);
    WaitOwn(g, i);
    var g' := G.ApplyWait(g, i);
    hide G.ApplyWait;
    SumToChange(CallOf(g.waiters), CallOf(g'.waiters), n, i);
  }

  lemma WaitRest(cfg: Config, g: G.State, readers: seq<ReaderPc>, main: MainPc, i: nat)
    requires i < |g.waiters| <= |readers| == cfg.n && readers[i].Gating?
    requires G.Enabled(g, G.Wait(i)) && !g.waiters[i].Waking?
    ensures var g' := G.ApplyWait(g, i);
            var r := if i < |g'.waiters| && g'.waiters[i].Through? then readers[i := Reading(0, 0, 0)] else readers;
            RestRank(cfg, r, g', main) < RestRank(cfg, readers, g, main)
  {
    WaitOthers(g, i);
    WaitOwn(g, i);
    var g' := G.ApplyWait(g, i);
    hide G.ApplyWait;
    var r := if i < |g'.waiters| && g'.waiters[i].Through? then readers[i := Reading(0, 0, 0)] else readers;
    SumToChange(PostOf(cfg.blocks, readers, g.waiters), PostOf(cfg.blocks, r, g'.waiters), cfg.n, i);
  }

  /** A reader's step inside the gate: a broadcast is used up, or everything else
      stays and the reader itself comes closer to leaving. */
  lemma GateStep(cfg: Config, g: G.State, readers: seq<ReaderPc>, main: MainPc, i: nat)
    requires i < |g.waiters| <= |readers| == cfg.n && readers[i].Gating? && G.Enabled(g, G.Wait(i))
    ensures var g' := G.ApplyWait(g, i);
            var r := if i < |g'.waiters| && g'.waiters[i].Through? then readers[i := Reading(0, 0, 0)] else readers;
            || WakeupRank(cfg.n, g'.waiters, g'.opener) < WakeupRank(cfg.n, g.waiters, g.opener)
            || (WakeupRank(cfg.n, g'.waiters, g'.opener) == WakeupRank(cfg.n, g.waiters, g.opener)
                && RestRank(cfg, r, g', main) < RestRank(cfg, readers, g, main))
  {
    WaitWakeups(cfg.n, g, i);
    if !g.waiters[i].Waking? {
      WaitRest(cfg, g, readers, main, i);
    }
  }

  /** The main thread's step inside the gate. */
  lemma OpenStep(cfg: Config, g: G.State, readers: seq<ReaderPc>)
    requires Gates(cfg.n, g, readers, Opening) && G.Enabled(g, G.Open)
    ensures var g' := G.ApplyOpen(g);
            var main := if g'.opener.Done? then JoinReaders(0) else Opening;
            || WakeupRank(cfg.n, g'.waiters, g'.opener) < WakeupRank(cfg.n, g.waiters, g.opener)
            || (WakeupRank(cfg.n, g'.waiters, g'.opener) == WakeupRank(cfg.n, g.waiters, g.opener)
                && RestRank(cfg, readers, g', main) < RestRank(cfg, readers, g, Opening))
  {
    hide G.Inv;
    var g' := G.ApplyOpen(g);
    SumToSame(CallOf(g.waiters), CallOf(g'.waiters), cfg.n);
    if !g.opener.Announcing? {
      SumToSame(PostOf(cfg.blocks, readers, g.waiters), PostOf(cfg.blocks, readers, g'.waiters), cfg.n);
    }
  }

  /** With every node linked and one still queued, each consumer step comes closer
      to returning a node. */
  lemma ConsumeProgress(q: Q.State)
    requires Q.Inv(q) && QT.NoMidInsert(q) && !QT.NothingQueued(q)
    ensures var t := Q.ApplyConsume(true, q);
            match Q.ConsumeOutcome(true, q)
            case Pending => CallRank(t.cons, t.tail) < CallRank(q.cons, q.tail)
            case ReturnedNull => CallRank(q.cons, q.tail) == 14
            case Returned(_) => CallRank(q.cons, q.tail) == 2
  {
    assert q.cons.CheckTail? ==> q.cons.h == q.head;
    if !(q.cons.CheckTail? && q.cons.h != q.tail) {
      assert !QT.EmptyOrMidInsert(q);
      QT.BusyConsume(q);
      Q.ConsumeKeepsInv(true, q);
      assert Q.ApplyConsume(true, q).cons.CheckTail? ==> Q.Consumer(Q.ApplyConsume(true, q));
    }
  }

  /** Everything but the readers' positions that the rank depends on. */
  ghost predicate SameElse(s: State, t: State) {
    t.main == s.main && t.rnic == s.rnic && t.spurious == s.spurious && t.popped == s.popped
  }

  lemma EnqueueFrame(cfg: Config, s: State, i: nat)
    requires Sized(cfg, s) && i < cfg.n && (s.readers[i].Stamping? || s.readers[i].Enqueuing?)
    ensures var t := ApplyReader(cfg, s, i);
            && SameElse(s, t) && t.g == s.g
            && |t.readers| == |t.q.prods| == cfg.n
            && t.readers == s.readers[i := t.readers[i]] && t.q.prods == s.q.prods[i := t.q.prods[i]]
            && Pre(t.readers[i], t.q.prods[i]) < Pre(s.readers[i], s.q.prods[i])
  {
  }

  lemma LocalFrame(cfg: Config, s: State, i: nat)
    requires Sized(cfg, s) && i < cfg.n && Enqueued(s.readers[i]) && !s.readers[i].Gating?
    ensures var t := ApplyReader(cfg, s, i);
            || t == s
            || (&& SameElse(s, t) && t.g == s.g && t.q == s.q
                && |t.readers| == cfg.n && t.readers == s.readers[i := t.readers[i]]
                && Enqueued(t.readers[i])
                && forall w :: Post(cfg.blocks, t.readers[i], w) < Post(cfg.blocks, s.readers[i], w))
  {
  }

  lemma GateFrame(cfg: Config, s: State, i: nat)
    requires Sized(cfg, s) && i < cfg.n && s.readers[i].Gating? && i < |s.g.waiters|
    ensures var (t, g) := (ApplyReader(cfg, s, i), G.ApplyWait(s.g, i));
            && SameElse(s, t) && t.q == s.q && t.g == g
            && t.readers == (if i < |g.waiters| && g.waiters[i].Through? then s.readers[i := Reading(0, 0, 0)]
                             else s.readers)
  {
  }

  /** A reader's step either is a failed poll or lowers the rank. */
  lemma ReaderLowersRank(cfg: Config, s: State, i: nat)
    requires Sized(cfg, s) && Enabled(cfg, s, Reader(i))
    requires |s.g.waiters| <= cfg.n
    ensures var t := ApplyReader(cfg, s, i); t == s || Less(RankOf(cfg, t), RankOf(cfg, s))
  {
    var t := ApplyReader(cfg, s, i);
    if s.readers[i].Stamping? || s.readers[i].Enqueuing? {
      EnqueueFrame(cfg, s, i);
      hide ApplyReader;
      hide EnqueueRank;
      PreStep(cfg.n, s.readers, s.q.prods, s.main, i, t.readers[i], t.q.prods[i]);
    } else if s.readers[i].Gating? {
      GateFrame(cfg, s, i);
      GateStep(cfg, s.g, s.readers, s.main, i);
      hide ApplyReader;
      hide G.ApplyWait;
      hide RestRank;
      hide WakeupRank;
      SumToSame(PreOf(s.readers, s.q.prods), PreOf(t.readers, t.q.prods), cfg.n);
    } else if t != s {
      LocalFrame(cfg, s, i);
      hide ApplyReader;
      hide EnqueueRank;
      hide RestRank;
      PostStep(cfg, s.readers, s.q.prods, s.main, s.g, i, t.readers[i]);
    }
  }

  /** All nodes are linked exactly when the first component is zero. */
  lemma EnqueueRankZero(cfg: Config, s: State)
    requires Inv(cfg, s)
    ensures RankOf(cfg, s).enqueue == 0 <==>
              !s.main.StartRnic? && !s.main.Creating? && forall i :: 0 <= i < cfg.n ==> Enqueued(s.readers[i])
  {
    hide Nodes;
    hide Served;
    hide Booked;
    hide Gated;
    hide Gates;
    hide Totals;
    hide Joined;
    var f := PreOf(s.readers, s.q.prods);
    if RankOf(cfg, s).enqueue == 0 {
      assert s.main.Creating? ==> MainPre(cfg.n, s.main) > 0;
      forall i | 0 <= i < cfg.n ensures Enqueued(s.readers[i]) {
        SumToMember(f, cfg.n, i);
        assert f(i) == Pre(s.readers[i], s.q.prods[i]) == 0;
      }
    } else if !s.main.StartRnic? && !s.main.Creating? {
      var i := SumToPositive(f, cfg.n);
      assert !Enqueued(s.readers[i]);
    }
  }

  /** With every node linked, the RNIC inside `mpsc_dequeue` has a node to find. */
  lemma SomethingQueued(cfg: Config, s: State)
    requires Inv(cfg, s) && s.rnic.Dequeuing?
    requires forall i :: 0 <= i < cfg.n ==> Enqueued(s.readers[i])
    ensures Q.Inv(s.q) && QT.NoMidInsert(s.q) && !QT.NothingQueued(s.q) && |s.popped| < cfg.n
  {
    hide Booked;
    hide Gated;
    hide Gates;
    hide Totals;
    Pigeonhole(s.popped, cfg.n);
    var i: nat :| i < cfg.n && i !in s.popped;
    hide Served;
    hide Q.Inv;
    forall p | 0 <= p < |s.q.prods| ensures !s.q.prods[p].Swapped? {
      assert NodeOk(s.q, s.readers[p], s.popped, p);
    }
    assert NodeOk(s.q, s.readers[i], s.popped, i);
    assert !Q.Absent(s.q, Q.Item(i));
  }

  lemma RnicFrame(cfg: Config, s: State)
    requires Sized(cfg, s)
    ensures var t := ApplyRnic(cfg, s);
            && t.readers == s.readers && t.main == s.main && t.g == s.g && t.spurious == s.spurious
            && t.q.prods == s.q.prods
  {
  }

  lemma PoppedBounded(cfg: Config, s: State)
    requires Inv(cfg, s)
    ensures |s.popped| <= cfg.n
  {
    Pigeonhole(s.popped, cfg.n);
  }

  lemma ServeStep(cfg: Config, s: State)
    requires Inv(cfg, s) && Enabled(cfg, s, Rnic)
    requires forall i :: 0 <= i < cfg.n ==> Enqueued(s.readers[i])
    ensures var t := ApplyRnic(cfg, s);
            RnicRank(cfg.n, t.rnic, t.q.cons, t.q.tail, |t.popped|)
            < RnicRank(cfg.n, s.rnic, s.q.cons, s.q.tail, |s.popped|)
  {
    hide Nodes;
    hide Booked;
    hide Gated;
    hide Gates;
    hide Totals;
    PoppedBounded(cfg, s);
    if s.rnic.Dequeuing? {
      SomethingQueued(cfg, s);
      hide Served;
      hide Q.Inv;
      hide QT.NothingQueued;
      hide QT.NoMidInsert;
      ConsumeProgress(s.q);
      DequeueKeepsNodes(cfg.n, s.q, s.readers, s.popped);
      hide Q.ApplyConsume;
      hide Q.ConsumeOutcome;
    }
  }

  /** The RNIC lowers the rank once every node is linked; before that it may poll
      in vain, which leaves the rank as it is. */
  lemma RnicLowersRank(cfg: Config, s: State)
    requires Inv(cfg, s) && Enabled(cfg, s, Rnic)
    ensures var (r, r') := (RankOf(cfg, s), RankOf(cfg, ApplyRnic(cfg, s)));
            if r.enqueue == 0 then Less(r', r) else r' == r
  {
    RnicFrame(cfg, s);
    EnqueueRankZero(cfg, s);
    if RankOf(cfg, s).enqueue == 0 {
      ServeStep(cfg, s);
    }
    hide Inv;
    hide ApplyRnic;
    hide RnicRank;
    hide EnqueueRank;
    hide RestRank;
    hide WakeupRank;
  }

  lemma CreateStep(cfg: Config, s: State)
    requires Sized(cfg, s) && s.main.Creating? && s.main.i < cfg.n && s.readers[s.main.i].Unborn?
    ensures Less(RankOf(cfg, ApplyMain(cfg, s)), RankOf(cfg, s))
  {
    var t := ApplyMain(cfg, s);
    SumToChange(PreOf(s.readers, s.q.prods), PreOf(t.readers, t.q.prods), cfg.n, s.main.i);
    hide RestRank;
    hide WakeupRank;
    hide RnicRank;
  }

  lemma OpeningStep(cfg: Config, s: State)
    requires Inv(cfg, s) && Enabled(cfg, s, Main) && s.main.Opening?
    ensures Less(RankOf(cfg, ApplyMain(cfg, s)), RankOf(cfg, s))
  {
    hide Nodes;
    hide Served;
    hide Booked;
    hide Gated;
    hide Gates;
    hide Totals;
    OpenStep(cfg, s.g, s.readers);
    hide Inv;
    hide RestRank;
    hide WakeupRank;
    hide RnicRank;
    hide G.ApplyOpen;
  }

  lemma MainLowersRank(cfg: Config, s: State)
    requires Inv(cfg, s) && Enabled(cfg, s, Main)
    ensures Less(RankOf(cfg, ApplyMain(cfg, s)), RankOf(cfg, s))
  {
    hide Nodes;
    hide Served;
    hide Booked;
    hide Gated;
    hide Totals;
    if s.main.Creating? && s.main.i < cfg.n {
      CreateStep(cfg, s);
    } else if s.main.Opening? {
      OpeningStep(cfg, s);
    }
    hide Gates;
    hide WakeupRank;
    hide RnicRank;
  }

  lemma SpuriousLowersRank(cfg: Config, s: State, th: G.Thread)
    requires Sized(cfg, s) && Enabled(cfg, s, Spurious(th))
    ensures Less(RankOf(cfg, ApplySpurious(s, th)), RankOf(cfg, s))
  {
    var t := ApplySpurious(s, th);
    SumToSame(CallOf(s.g.waiters), CallOf(t.g.waiters), cfg.n);
    hide RestRank;
    hide RnicRank;
    hide EnqueueRank;
  }

  /** The rank never grows, and a step that keeps it is a failed poll, a clock tick,
      or a step of the RNIC while some node is not linked yet. */
  lemma StepRank(cfg: Config, s: State, a: Action)
    requires Inv(cfg, s) && Enabled(cfg, s, a)
    ensures var t := Apply(cfg, s, a);
            || Less(RankOf(cfg, t), RankOf(cfg, s))
            || (RankOf(cfg, t) == RankOf(cfg, s)
                && (t == s || a.Tick? || (a.Rnic? && RankOf(cfg, s).enqueue > 0)))
  {
    hide Nodes;
    hide Served;
    hide Booked;
    hide Gated;
    hide Totals;
    assert |s.g.waiters| <= cfg.n;
    hide Gates;
    match a
    case Reader(i) => ReaderLowersRank(cfg, s, i);
    case Rnic => RnicLowersRank(cfg, s);
    case Main => MainLowersRank(cfg, s);
    case Tick(_) =>
    case Spurious(t) => SpuriousLowersRank(cfg, s, t);
  }

  // ----- Some thread can always lower the rank ---------------------------------

  /** The thread `a` can take a step that lowers the rank, and keeps being able to
      until the rank is lowered. */
  ghost predicate Ready(cfg: Config, s: State, a: Action)
    requires Sized(cfg, s)
  {
    if RankOf(cfg, s).enqueue > 0 then
      match a {
        case Main => s.main.StartRnic? || s.main.Creating?
        case Reader(i) => i < cfg.n && (s.readers[i].Stamping? || s.readers[i].Enqueuing?)
        case _ => false
      }
    else
      match a {
        case Rnic => !s.rnic.Finished? && !s.rnic.NotStarted?
        case Main => !s.main.Done? && !s.main.StartRnic? && !s.main.Creating? && Enabled(cfg, s, Main)
        case Reader(i) =>
          i < cfg.n &&
          match s.readers[i] {
            case Polling => s.flags[i]
            case Waiting => s.clock >= s.expire[i]
            case Gating => G.Enabled(s.g, G.Wait(i))
            case Reading(_, _, _) => true
            case AddBlocks(_, _, _) => true
            case AddFail(_, _) => true
            case AddSum(_) => true
            case _ => false
          }
        case _ => false
      }
  }

  /** The readers waiting for a deadline that has not come yet; only time helps. */
  ghost predicate AwaitsClock(cfg: Config, s: State, i: nat)
    requires Sized(cfg, s)
  {
    && RankOf(cfg, s).enqueue == 0 && s.rnic.Finished?
    && i < cfg.n && s.readers[i].Waiting?
  }

  lemma ReadyReaderEnabled(cfg: Config, s: State, i: nat)
    requires Inv(cfg, s) && Ready(cfg, s, Reader(i))
    ensures Enabled(cfg, s, Reader(i)) && ApplyReader(cfg, s, i) != s
  {
    hide Served;
    hide Booked;
    hide Gated;
    hide Totals;
    if s.readers[i].Enqueuing? {
      PreparedIsOwn(cfg.n, s.q, s.readers, s.popped, i);
      EnqueueFrame(cfg, s, i);
    } else if s.readers[i].Gating? {
      hide Nodes;
      WaitOwn(s.g, i);
    }
    hide Nodes;
    hide Gates;
    hide RankOf;
  }

  /** A ready thread's step is enabled and lowers the rank. */
  lemma ReadyLowersRank(cfg: Config, s: State, a: Action)
    requires Inv(cfg, s) && Ready(cfg, s, a)
    ensures Enabled(cfg, s, a) && Less(RankOf(cfg, Apply(cfg, s, a)), RankOf(cfg, s))
  {
    hide Nodes;
    hide Served;
    hide Booked;
    hide Gated;
    hide Totals;
    hide RankOf;
    match a
    case Reader(i) =>
      ReadyReaderEnabled(cfg, s, i);
      assert |s.g.waiters| <= cfg.n;
      ReaderLowersRank(cfg, s, i);
    case Rnic => RnicLowersRank(cfg, s);
    case Main =>
      MainLowersRank(cfg, s);
  }

  lemma StepSized(cfg: Config, s: State, a: Action)
    requires Inv(cfg, s) && Enabled(cfg, s, a)
    ensures Sized(cfg, s) && Sized(cfg, Apply(cfg, s, a))
  {
    hide Nodes;
    hide Served;
    hide Booked;
    hide Gated;
    hide Gates;
    hide Totals;
    StepKeepsInv(cfg, s, a);
  }

  /** Readiness survives every step that keeps the rank. */
  lemma ReadyPersists(cfg: Config, s: State, a: Action, b: Action)
    requires Inv(cfg, s) && Ready(cfg, s, a) && Enabled(cfg, s, b)
    requires RankOf(cfg, Apply(cfg, s, b)) == RankOf(cfg, s)
    ensures Sized(cfg, Apply(cfg, s, b)) && Ready(cfg, Apply(cfg, s, b), a)
  {
    StepSized(cfg, s, b);
    hide Inv;
    StepRank(cfg, s, b);
    hide RankOf;
    if b.Rnic? {
      RnicFrame(cfg, s);
    }
  }

  /** In a state where every node is linked and the RNIC has finished, and no
      reader is before the gate, some thread is ready. */
  lemma GateReady(cfg: Config, s: State) returns (a: Action)
    requires Inv(cfg, s) && !s.main.Done?
    requires RankOf(cfg, s).enqueue == 0 && s.rnic.Finished?
    requires forall i :: 0 <= i < cfg.n ==> PastDeadline(s.readers[i])
    ensures Ready(cfg, s, a)
  {
    EnqueueRankZero(cfg, s);
    hide Nodes;
    hide Served;
    hide Booked;
    hide Gated;
    hide Totals;
    hide RankOf;
    if i :| 0 <= i < cfg.n && !s.readers[i].Gating? && !s.readers[i].Exited? {
      a := Reader(i);
    } else if i :| 0 <= i < cfg.n && s.readers[i].Gating? && G.Enabled(s.g, G.Wait(i)) {
      a := Reader(i);
    } else {
      a := Main;
      if s.main.Opening? {
        OpenerReady(cfg.n, s.g, s.readers);
      } else {
        AllThrough(cfg.n, s.g, s.readers, s.main);
      }
    }
  }

  /** Every reader is out, or inside the gate without a step. */
  ghost predicate Blocked(n: nat, g: G.State, readers: seq<ReaderPc>) {
    && |readers| == n
    && forall i :: 0 <= i < n ==> readers[i].Exited? || (readers[i].Gating? && !G.Enabled(g, G.Wait(i)))
  }

  /** Then no reader holds the mutex, none is about to take it, and those still
      inside are asleep on the condition variable. */
  lemma BlockedSleep(n: nat, g: G.State, readers: seq<ReaderPc>, main: MainPc)
    requires Gates(n, g, readers, main) && Blocked(n, g, readers) && |g.waiters| == n
    ensures g.holder.None? || g.holder == Some(G.Opener)
    ensures g.holder.None? ==> forall i :: 0 <= i < n ==>
              if readers[i].Exited? then g.waiters[i].Through? else g.waiters[i].Asleep?
  {
    var h := if g.holder.Some? && g.holder.value.Waiter? then g.holder.value.i else 0;
    assert h < n ==> WaiterOk(readers[h], g.waiters[h]);
    forall i | 0 <= i < n && g.holder.None?
      ensures if readers[i].Exited? then g.waiters[i].Through? else g.waiters[i].Asleep?
    {
      assert WaiterOk(readers[i], g.waiters[i]);
    }
  }

  /** Nobody inside the gate can move, so the main thread can. */
  lemma OpenerReady(n: nat, g: G.State, readers: seq<ReaderPc>)
    requires Gates(n, g, readers, Opening) && Blocked(n, g, readers)
    ensures G.Enabled(g, G.Open)
  {
    BlockedSleep(n, g, readers, Opening);
    G.CountedAll(g.waiters);
  }

  /** Once the main thread has opened the gate, nobody stays inside for lack of a
      wakeup. */
  lemma AllThrough(n: nat, g: G.State, readers: seq<ReaderPc>, main: MainPc)
    requires Gates(n, g, readers, main) && Blocked(n, g, readers) && g.opener.Done?
    ensures forall i :: 0 <= i < n ==> readers[i].Exited?
  {
    BlockedSleep(n, g, readers, main);
  }

  // ----- No reachable state is stuck -------------------------------------------

  /** In every unfinished state of the invariant some thread is ready, or a reader
      is waiting for its deadline. */
  lemma SomeReady(cfg: Config, s: State) returns (a: Action)
    requires Inv(cfg, s) && !s.main.Done?
    ensures Ready(cfg, s, a) || (a.Reader? && AwaitsClock(cfg, s, a.i))
  {
    EnqueueRankZero(cfg, s);
    hide Nodes;
    hide Booked;
    hide Gates;
    hide Totals;
    if s.main.StartRnic? || s.main.Creating? {
      hide RankOf;
      a := Main;
    } else if i :| 0 <= i < cfg.n && !Enqueued(s.readers[i]) {
      hide RankOf;
      AllCreated(cfg, s, i);
      a := Reader(i);
    } else if !s.rnic.Finished? {
      hide RankOf;
      a := Rnic;
    } else {
      hide RankOf;
      AllFlagged(cfg, s);
      if i :| 0 <= i < cfg.n && s.readers[i].Polling? {
        a := Reader(i);
      } else if i :| 0 <= i < cfg.n && s.readers[i].Waiting? {
        a := Reader(i);
      } else {
        a := GateReady(cfg, s);
      }
    }
  }

  lemma AllCreated(cfg: Config, s: State, i: nat)
    requires Inv(cfg, s) && i < cfg.n && !s.main.StartRnic? && !s.main.Creating?
    ensures !s.readers[i].Unborn?
  {
    assert WaiterOk(s.readers[i], s.g.waiters[i]);
  }

  lemma AllFlagged(cfg: Config, s: State)
    requires Inv(cfg, s) && s.rnic.Finished?
    ensures forall i :: 0 <= i < cfg.n ==> s.flags[i]
  {
    ST.SignalsArePrefix(cfg, s);
    Pigeonhole(s.signals, cfg.n);
  }

  /** Whenever the clock has advanced to the deadline of the waiting reader, its next
      step lowers the rank. */
  ghost predicate MovesWhenDue(cfg: Config, s: State, i: nat)
    requires Sized(cfg, s)
  {
    && AwaitsClock(cfg, s, i)
    && forall clock: real :: s.clock <= clock && s.expire[i] <= clock ==> LowersAt(cfg, s, i, Tick(clock))
  }

  /** After the tick the reader's step is enabled and lowers the rank. */
  ghost predicate LowersAt(cfg: Config, s: State, i: nat, tick: Action)
    requires Sized(cfg, s)
  {
    && Enabled(cfg, s, tick)
    && var t := Apply(cfg, s, tick);
       && Sized(cfg, t) && Enabled(cfg, t, Reader(i))
       && Less(RankOf(cfg, Apply(cfg, t, Reader(i))), RankOf(cfg, s))
  }

  lemma DueReaderLowers(cfg: Config, s: State, i: nat, clock: real)
    requires Inv(cfg, s) && AwaitsClock(cfg, s, i) && s.clock <= clock && s.expire[i] <= clock
    ensures LowersAt(cfg, s, i, Tick(clock))
  {
    var t := Apply(cfg, s, Tick(clock));
    hide Inv;
    StepKeepsInv(cfg, s, Tick(clock));
    StepSized(cfg, s, Tick(clock));
    assert RankOf(cfg, t) == RankOf(cfg, s);
    hide RankOf;
    ReadyLowersRank(cfg, t, Reader(i));
  }

  /** No reachable unfinished state is stuck: some thread's step lowers the rank, at
      once or as soon as the clock has reached a deadline. */
  lemma NeverStuck(cfg: Config, ex: seq<State>, acts: seq<Action>, k: nat)
    requires ST.Execution(cfg, ex, acts) && k < |ex| && !ex[k].main.Done?
    ensures Inv(cfg, ex[k])
    ensures exists a ::
              || (Enabled(cfg, ex[k], a) && Less(RankOf(cfg, Apply(cfg, ex[k], a)), RankOf(cfg, ex[k])))
              || (a.Reader? && MovesWhenDue(cfg, ex[k], a.i))
  {
    ST.ReachableInv(cfg, ex, acts, k);
    var s := ex[k];
    var a := SomeReady(cfg, s);
    assert Sized(cfg, s);
    hide Inv;
    hide RankOf;
    hide Ready;
    hide Less;
    if Ready(cfg, s, a) {
      ReadyLowersRank(cfg, s, a);
    } else {
      forall clock: real | s.clock <= clock && s.expire[a.i] <= clock ensures LowersAt(cfg, s, a.i, Tick(clock)) {
        DueReaderLowers(cfg, s, a.i, clock);
      }
      assert MovesWhenDue(cfg, s, a.i);
    }
  }

  // ----- Every fair run ends ---------------------------------------------------

  ghost predicate RunStep(cfg: Config, run: nat -> State, sched: nat -> Action, t: nat) {
    && Sized(cfg, run(t))
    && Enabled(cfg, run(t), sched(t))
    && run(t + 1) == Apply(cfg, run(t), sched(t))
  }

  /** An infinite run; after the sweep has ended only the clock ticks on. */
  ghost predicate InfiniteRun(cfg: Config, run: nat -> State, sched: nat -> Action) {
    && cfg.service > 0.0
    && run(0).clock >= 0.0 && run(0) == Init(cfg, run(0).clock, run(0).spurious)
    && forall t: nat :: RunStep(cfg, run, sched, t)
  }

  /** After time `t`, thread `a` takes a step or has none to take. */
  ghost predicate HasTurn(cfg: Config, run: nat -> State, sched: nat -> Action, a: Action, t: nat) {
    exists u: nat :: u >= t && Sized(cfg, run(u)) && (sched(u) == a || !Enabled(cfg, run(u), a))
  }

  ghost predicate ClockReaches(run: nat -> State, c: real, t: nat) {
    exists u: nat :: u >= t && run(u).clock >= c
  }

  /** Weak fairness to every thread, and a clock that passes every bound. */
  ghost predicate Fair(cfg: Config, run: nat -> State, sched: nat -> Action) {
    && (forall a: Action, t: nat :: (a.Reader? || a.Rnic? || a.Main?) ==> HasTurn(cfg, run, sched, a, t))
    && (forall c: real, t: nat :: ClockReaches(run, c, t))
  }

  lemma {:induction false} RunInv(cfg: Config, run: nat -> State, sched: nat -> Action, t: nat)
    requires InfiniteRun(cfg, run, sched)
    ensures Inv(cfg, run(t))
  {
    hide Inv;
    if t == 0 {
      InitInv(cfg, run(0).clock, run(0).spurious);
    } else {
      RunInv(cfg, run, sched, t - 1);
      assert RunStep(cfg, run, sched, t - 1);
      StepKeepsInv(cfg, run(t - 1), sched(t - 1));
    }
  }

  /** Between `t` and `u` the rank either stays the same or is lowered. */
  ghost predicate Level(cfg: Config, run: nat -> State, t: nat, u: nat) {
    forall v: nat :: t <= v <= u ==> RankOf(cfg, run(v)) == RankOf(cfg, run(t))
  }

  ghost predicate Drops(cfg: Config, run: nat -> State, t: nat) {
    exists v: nat :: v > t && Less(RankOf(cfg, run(v)), RankOf(cfg, run(t)))
  }

  lemma {:induction false} LevelOrDrops(cfg: Config, run: nat -> State, sched: nat -> Action, t: nat, u: nat)
    requires InfiniteRun(cfg, run, sched) && t <= u
    ensures Level(cfg, run, t, u) || Drops(cfg, run, t)
  {
    hide RankOf;
    hide Inv;
    if u > t {
      LevelOrDrops(cfg, run, sched, t, u - 1);
      RankAfter(cfg, run, sched, u - 1);
    }
  }

  lemma RankAfter(cfg: Config, run: nat -> State, sched: nat -> Action, t: nat)
    requires InfiniteRun(cfg, run, sched)
    ensures RankOf(cfg, run(t + 1)) == RankOf(cfg, run(t)) || Less(RankOf(cfg, run(t + 1)), RankOf(cfg, run(t)))
  {
    hide RankOf;
    hide Apply;
    hide Enabled;
    hide Sized;
    hide Inv;
    hide Less;
    RunInv(cfg, run, sched, t);
    assert RunStep(cfg, run, sched, t);
    StepRank(cfg, run(t), sched(t));
  }

  lemma {:induction false} StaysReady(cfg: Config, run: nat -> State, sched: nat -> Action, a: Action, t: nat, u: nat)
    requires InfiniteRun(cfg, run, sched) && t <= u && Level(cfg, run, t, u)
    requires Sized(cfg, run(t)) && Ready(cfg, run(t), a)
    ensures Sized(cfg, run(u)) && Ready(cfg, run(u), a)
  {
    hide *;
    if u > t {
      LevelStep(cfg, run, t, u);
      StaysReady(cfg, run, sched, a, t, u - 1);
      ReadyNext(cfg, run, sched, a, u - 1);
    }
  }

  lemma LevelStep(cfg: Config, run: nat -> State, t: nat, u: nat)
    requires t < u && Level(cfg, run, t, u)
    ensures Level(cfg, run, t, u - 1) && RankOf(cfg, run(u)) == RankOf(cfg, run(u - 1))
  {
    hide RankOf;
  }

  lemma ReadyNext(cfg: Config, run: nat -> State, sched: nat -> Action, a: Action, t: nat)
    requires InfiniteRun(cfg, run, sched) && RankOf(cfg, run(t + 1)) == RankOf(cfg, run(t))
    requires Sized(cfg, run(t)) && Ready(cfg, run(t), a)
    ensures Sized(cfg, run(t + 1)) && Ready(cfg, run(t + 1), a)
  {
    hide RankOf;
    hide Apply;
    hide Enabled;
    hide Sized;
    hide Ready;
    hide Inv;
    RunInv(cfg, run, sched, t);
    assert RunStep(cfg, run, sched, t);
    ReadyPersists(cfg, run(t), a, sched(t));
  }

  /** A ready thread gets its turn, so the rank drops. */
  lemma ReadyDrops(cfg: Config, run: nat -> State, sched: nat -> Action, a: Action, t: nat)
    requires InfiniteRun(cfg, run, sched) && Fair(cfg, run, sched)
    requires Sized(cfg, run(t)) && Ready(cfg, run(t), a)
    ensures Drops(cfg, run, t)
  {
    assert a.Reader? || a.Rnic? || a.Main?;
    assert HasTurn(cfg, run, sched, a, t);
    hide RankOf;
    hide Ready;
    var u: nat :| u >= t && Sized(cfg, run(u)) && (sched(u) == a || !Enabled(cfg, run(u), a));
    LevelOrDrops(cfg, run, sched, t, u);
    if Level(cfg, run, t, u) {
      StaysReady(cfg, run, sched, a, t, u);
      RunInv(cfg, run, sched, u);
      hide Inv;
      ReadyLowersRank(cfg, run(u), a);
      assert RunStep(cfg, run, sched, u);
      assert Less(RankOf(cfg, run(u + 1)), RankOf(cfg, run(t)));
    }
  }

  /** While the rank stays the same, a waiting reader keeps waiting for the same
      deadline, unless its deadline has passed. */
  lemma WaitingStep(cfg: Config, s: State, i: nat, b: Action)
    requires Inv(cfg, s) && AwaitsClock(cfg, s, i) && Enabled(cfg, s, b)
    requires RankOf(cfg, Apply(cfg, s, b)) == RankOf(cfg, s)
    ensures var t := Apply(cfg, s, b);
            Sized(cfg, t) && AwaitsClock(cfg, t, i) && t.expire == s.expire
  {
    StepSized(cfg, s, b);
    hide Inv;
    StepRank(cfg, s, b);
    hide RankOf;
  }

  lemma {:induction false} StaysWaiting(cfg: Config, run: nat -> State, sched: nat -> Action, i: nat, t: nat, u: nat)
    requires InfiniteRun(cfg, run, sched) && t <= u && Level(cfg, run, t, u)
    requires Sized(cfg, run(t)) && AwaitsClock(cfg, run(t), i)
    ensures Sized(cfg, run(u)) && AwaitsClock(cfg, run(u), i) && run(u).expire == run(t).expire
  {
    hide *;
    if u > t {
      LevelStep(cfg, run, t, u);
      StaysWaiting(cfg, run, sched, i, t, u - 1);
      WaitingNext(cfg, run, sched, i, u - 1);
    }
  }

  lemma WaitingNext(cfg: Config, run: nat -> State, sched: nat -> Action, i: nat, t: nat)
    requires InfiniteRun(cfg, run, sched) && RankOf(cfg, run(t + 1)) == RankOf(cfg, run(t))
    requires Sized(cfg, run(t)) && AwaitsClock(cfg, run(t), i)
    ensures Sized(cfg, run(t + 1)) && AwaitsClock(cfg, run(t + 1), i) && run(t + 1).expire == run(t).expire
  {
    hide RankOf;
    hide Apply;
    hide Enabled;
    hide Sized;
    hide AwaitsClock;
    hide Inv;
    RunInv(cfg, run, sched, t);
    assert RunStep(cfg, run, sched, t);
    WaitingStep(cfg, run(t), i, sched(t));
  }

  /** A reader's deadline comes, and then its turn. */
  lemma WaitingDrops(cfg: Config, run: nat -> State, sched: nat -> Action, i: nat, t: nat)
    requires InfiniteRun(cfg, run, sched) && Fair(cfg, run, sched)
    requires Sized(cfg, run(t)) && AwaitsClock(cfg, run(t), i)
    ensures Drops(cfg, run, t)
  {
    hide RankOf;
    assert ClockReaches(run, run(t).expire[i], t);
    var u: nat :| u >= t && run(u).clock >= run(t).expire[i];
    LevelOrDrops(cfg, run, sched, t, u);
    if Level(cfg, run, t, u) {
      StaysWaiting(cfg, run, sched, i, t, u);
      ReadyDrops(cfg, run, sched, Reader(i), u);
      var v: nat :| v > u && Less(RankOf(cfg, run(v)), RankOf(cfg, run(u)));
      assert Less(RankOf(cfg, run(v)), RankOf(cfg, run(t)));
    }
  }

  lemma {:induction false} EventuallyDone(cfg: Config, run: nat -> State, sched: nat -> Action, t: nat)
    returns (u: nat)
    requires InfiniteRun(cfg, run, sched) && Fair(cfg, run, sched)
    ensures run(u).main.Done?
    decreases RankOf(cfg, run(t)).enqueue, RankOf(cfg, run(t)).serve, RankOf(cfg, run(t)).wakeups,
              RankOf(cfg, run(t)).spurious, RankOf(cfg, run(t)).rest
  {
    hide RankOf;
    hide Apply;
    hide Enabled;
    hide Sized;
    if run(t).main.Done? {
      u := t;
    } else {
      RunInv(cfg, run, sched, t);
      var a := SomeReady(cfg, run(t));
      hide Inv;
      if Ready(cfg, run(t), a) {
        ReadyDrops(cfg, run, sched, a, t);
      } else {
        WaitingDrops(cfg, run, sched, a.i, t);
      }
      var v: nat :| v > t && Less(RankOf(cfg, run(v)), RankOf(cfg, run(t)));
      u := EventuallyDone(cfg, run, sched, v);
    }
  }

  /** Every fair run of a sweep ends: the main thread returns, having joined every
      reader and the RNIC, after each response flag has been raised exactly once. */
  lemma FairRunsEnd(cfg: Config, run: nat -> State, sched: nat -> Action) returns (u: nat)
    requires InfiniteRun(cfg, run, sched) && Fair(cfg, run, sched)
    ensures var s := run(u);
            && s.main.Done? && s.rnic.Finished? && s.done == cfg.n
            && |s.readers| == cfg.n
            && (forall i :: 0 <= i < cfg.n ==> s.readers[i].Exited?)
            && Distinct(s.signals, cfg.n) && forall i: nat :: i < cfg.n ==> i in s.signals
  {
    u := EventuallyDone(cfg, run, sched, 0);
    RunInv(cfg, run, sched, u);
    var s := run(u);
    ST.SignalsArePrefix(cfg, s);
    Pigeonhole(s.signals, cfg.n);
    hide Nodes;
    hide Booked;
    hide Gated;
    hide Gates;
    hide Totals;
  }
}
