/**
 One sweep with all readers created: n reader threads, the RNIC thread and the
 main thread, sharing the queue, the link, the response flags and the start
 gate, under an arbitrary non-decreasing clock.  A step is one shared-memory
 access, clock reading or gate operation of one thread.
 */
module SweepModel {
  import opened Wrappers
  import opened Word64
  import Q = MpscProtocol
  import G = StartGate
  import L = LinkTimeline

  /** `blockOk` and `blockSum` are what reading block `blk` of request `req` finds
      in the store, which no thread writes during a sweep. */
  datatype Config = Config(
    n: nat,
    blocks: nat,
    service: real,
    blockOk: (nat, nat) -> bool,
    blockSum: (nat, nat) -> nat)

  /** Where a reader is.  Inside `mpsc_enqueue` and `gate_wait` the queue and the
      gate record the exact position. */
  datatype ReaderPc =
    | Unborn
    | Stamping
    | Enqueuing
    | Polling
    | Waiting
    | Gating
    | Reading(blk: nat, fail: nat, sum: nat)
    | AddBlocks(count: nat, fail: nat, sum: nat)
    | AddFail(fail: nat, sum: nat)
    | AddSum(sum: nat)
    | Exited

  datatype RnicPc =
    | NotStarted
    | Looping
    | Dequeuing
    | Got(id: nat)
    | Booking(id: nat, now: real)
    | Signalling(id: nat)
    | Incrementing
    | Finished

  datatype MainPc = StartRnic | Creating(i: nat) | Opening | JoinReaders(i: nat) | JoinRnic | Done

  /** `popped`, `nows` and `signals` record the requests in the order in which the
      RNIC dequeued them, its clock readings, and the response flags it raised.
      `spurious` bounds the spurious wakeups still to come. */
  datatype State = State(
    q: Q.State,
    g: G.State,
    link: L.Link,
    clock: real,
    expire: seq<real>,
    flags: seq<bool>,
    readers: seq<ReaderPc>,
    rnic: RnicPc,
    main: MainPc,
    done: nat,
    blocksRead: nat,
    verifyFail: nat,
    checksum: nat,
    spurious: nat,
    popped: seq<nat>,
    nows: seq<real>,
    signals: seq<nat>)

  datatype Action = Reader(i: nat) | Rnic | Main | Tick(clock: real) | Spurious(t: G.Thread)

  function Init(cfg: Config, clock: real, spurious: nat): State {
    State(Q.Init(cfg.n), G.Init(cfg.n), L.FRESH, clock,
          seq(cfg.n, i => 0.0), seq(cfg.n, i => false), seq(cfg.n, i => Unborn),
          NotStarted, StartRnic, 0, 0, 0, 0, spurious, [], [], [])
  }

  /** The vectors have one entry per reader. */
  ghost predicate Sized(cfg: Config, s: State) {
    |s.expire| == |s.flags| == |s.readers| == |s.q.prods| == cfg.n
  }

  /** The next queue step of reader `i` inside `mpsc_enqueue`. */
  function EnqueueStep(s: State, i: nat): Q.Step
    requires i < |s.q.prods|
  {
    match s.q.prods[i]
    case Outside => Q.Begin(i, Q.Item(i))
    case Prepared(_) => Q.Swap(i)
    case Swapped(_, _, _) => Q.Link(i)
  }

  ghost predicate Enabled(cfg: Config, s: State, a: Action)
    requires Sized(cfg, s)
  {
    match a
    case Reader(i) =>
      i < cfg.n && !s.readers[i].Unborn? && !s.readers[i].Exited?
      && (s.readers[i].Enqueuing? ==> Q.Enabled(s.q, EnqueueStep(s, i)))
      && (s.readers[i].Gating? ==> G.Enabled(s.g, G.Wait(i)))
    case Rnic => !s.rnic.NotStarted? && !s.rnic.Finished?
    case Main =>
      match s.main {
        case StartRnic => true
        case Creating(i) => i < cfg.n ==> s.readers[i].Unborn? && G.Enabled(s.g, G.Create)
        case Opening => G.Enabled(s.g, G.Open)
        case JoinReaders(i) => i < cfg.n ==> s.readers[i].Exited?
        case JoinRnic => s.rnic.Finished?
        case Done => false
      }
    case Tick(clock) => s.clock <= clock
    case Spurious(t) => s.spurious > 0 && G.Enabled(s.g, G.Spurious(t))
  }

  /** One step of `rdma_reader_thread`.  A poll or deadline test that fails leaves
      the state as it is. */
  function ApplyReader(cfg: Config, s: State, i: nat): State
    requires Sized(cfg, s) && i < cfg.n
    requires s.readers[i].Gating? ==> i < |s.g.waiters|
  {
    match s.readers[i]
    case Unborn => s
    case Stamping => s.(expire := s.expire[i := s.clock], readers := s.readers[i := Enqueuing])
    case Enqueuing =>
      (match s.q.prods[i] {
         case Outside => s.(q := Q.ApplyBegin(s.q, i, Q.Item(i)))
         case Prepared(_) => s.(q := Q.ApplySwap(s.q, i))
         case Swapped(_, _, _) => s.(q := Q.ApplyLink(s.q, i), readers := s.readers[i := Polling])
       })
    case Polling => if s.flags[i] then s.(readers := s.readers[i := Waiting]) else s
    case Waiting => if s.clock < s.expire[i] then s else s.(readers := s.readers[i := Gating])
    case Gating =>
      var g := G.ApplyWait(s.g, i);
      s.(g := g,
         readers := if i < |g.waiters| && g.waiters[i].Through? then s.readers[i := Reading(0, 0, 0)] else s.readers)
    case Reading(blk, fail, sum) =>
      s.(readers := s.readers[i :=
           if blk < cfg.blocks then
             Reading(blk + 1,
                     if cfg.blockOk(i, blk) then fail else Add64(fail, 1),
                     Add64(sum, cfg.blockSum(i, blk)))
           else AddBlocks(blk, fail, sum)])
    case AddBlocks(count, fail, sum) =>
      s.(blocksRead := Add64(s.blocksRead, count), readers := s.readers[i := AddFail(fail, sum)])
    case AddFail(fail, sum) =>
      s.(verifyFail := Add64(s.verifyFail, fail), readers := s.readers[i := AddSum(sum)])
    case AddSum(sum) =>
      s.(checksum := Add64(s.checksum, sum), readers := s.readers[i := Exited])
    case Exited => s
  }

  /** One step of `rnic_thread`. */
  function ApplyRnic(cfg: Config, s: State): State
    requires Sized(cfg, s)
  {
    match s.rnic
    case NotStarted => s
    case Looping => s.(rnic := if s.done < cfg.n then Dequeuing else Finished)
    case Dequeuing =>
      var q := Q.ApplyConsume(true, s.q);
      (match Q.ConsumeOutcome(true, s.q) {
         case Pending => s.(q := q)
         case Returned(Item(id)) => s.(q := q, rnic := Got(id), popped := s.popped + [id])
         case _ => s.(q := q, rnic := Looping)
       })
    case Got(id) => s.(rnic := Booking(id, s.clock))
    case Booking(id, now) =>
      var link := L.Book(s.link, now, cfg.service);
      s.(link := link, nows := s.nows + [now], rnic := Signalling(id),
         expire := if id < cfg.n then s.expire[id := link.ntime] else s.expire)
    case Signalling(id) =>
      s.(flags := if id < cfg.n then s.flags[id := true] else s.flags,
         signals := s.signals + [id], rnic := Incrementing)
    case Incrementing => s.(done := s.done + 1, rnic := Looping)
    case Finished => s
  }

  /** One step of `run_one_sweep`. */
  function ApplyMain(cfg: Config, s: State): State
    requires Sized(cfg, s)
  {
    match s.main
    case StartRnic => s.(rnic := Looping, main := Creating(0))
    case Creating(i) =>
      if i < cfg.n then
        s.(readers := s.readers[i := Stamping], main := Creating(i + 1),
           g := s.g.(waiters := s.g.waiters + [G.Away]))
      else s.(main := Opening)
    case Opening =>
      var g := G.ApplyOpen(s.g);
      s.(g := g, main := if g.opener.Done? then JoinReaders(0) else Opening)
    case JoinReaders(i) => s.(main := if i < cfg.n then JoinReaders(i + 1) else JoinRnic)
    case JoinRnic => s.(main := Done)
    case Done => s
  }

  function ApplySpurious(s: State, t: G.Thread): State
    requires G.Enabled(s.g, G.Spurious(t)) && s.spurious > 0
  {
    s.(g := G.Apply(s.g, G.Spurious(t)), spurious := s.spurious - 1)
  }

  function Apply(cfg: Config, s: State, a: Action): State
    requires Sized(cfg, s) && Enabled(cfg, s, a)
  {
    match a
    case Reader(i) => ApplyReader(cfg, s, i)
    case Rnic => ApplyRnic(cfg, s)
    case Main => ApplyMain(cfg, s)
    case Tick(clock) => s.(clock := clock)
    case Spurious(t) => ApplySpurious(s, t)
  }
}
