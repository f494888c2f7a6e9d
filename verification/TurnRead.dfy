/**
 One cumulative read of `test3-mt.c` with its threads: the main thread creates one
 reader per request, opens the gate and joins them; the readers meet at the gate, read
 their blocks and add their counters atomically.  From the gate on a reader does what a
 reader of the sweep does, so the steps, the gate and the tallies are those of the sweep;
 the queue, the link and the clock play no part.
 */
module TurnRead {
  import opened Wrappers
  import opened Word64
  import opened Sums
  import opened BlockBytes
  import G = StartGate
  import M = MultiTurn
  import opened SweepModel
  import opened SweepSafety
  import ST = SweepTheorems

  datatype Move = Read(i: nat) | Lead | Wake(t: G.Thread)

  ghost predicate CanMove(cfg: Config, s: State, a: Move)
    requires Sized(cfg, s)
  {
    match a
    case Read(i) => Enabled(cfg, s, Reader(i))
    case Lead => Enabled(cfg, s, Main)
    case Wake(t) => G.Enabled(s.g, G.Spurious(t))
  }

  /** A new reader starts at the gate; the readers are all there is to join. */
  function Advance(cfg: Config, s: State): State
    requires Sized(cfg, s)
  {
    match s.main
    case Creating(i) =>
      if i < cfg.n then
        s.(readers := s.readers[i := Gating], main := Creating(i + 1),
           g := s.g.(waiters := s.g.waiters + [G.Away]))
      else s.(main := Opening)
    case JoinReaders(i) => s.(main := if i < cfg.n then JoinReaders(i + 1) else Done)
    case _ => ApplyMain(cfg, s)
  }

  function Step(cfg: Config, s: State, a: Move): State
    requires Sized(cfg, s) && CanMove(cfg, s, a)
  {
    match a
    case Read(i) => ApplyReader(cfg, s, i)
    case Lead => Advance(cfg, s)
    case Wake(t) => s.(g := G.Apply(s.g, G.Spurious(t)))
  }

  function Start(cfg: Config): State {
    Init(cfg, 0.0, 0).(main := Creating(0))
  }

  ghost predicate Execution(cfg: Config, ex: seq<State>, acts: seq<Move>) {
    && |ex| == |acts| + 1
    && ex[0] == Start(cfg)
    && forall i :: 0 <= i < |acts| ==> StepAt(cfg, ex, acts, i)
  }

  ghost predicate StepAt(cfg: Config, ex: seq<State>, acts: seq<Move>, i: nat)
    requires i < |acts| && i + 1 < |ex|
  {
    Sized(cfg, ex[i]) && CanMove(cfg, ex[i], acts[i]) && ex[i + 1] == Step(cfg, ex[i], acts[i])
  }

  // ----- The invariant ------------------------------------------------------------

  /** A reader is not yet created, or at the gate or behind it. */
  ghost predicate Placed(readers: seq<ReaderPc>, main: MainPc) {
    && (forall i :: 0 <= i < |readers| ==> readers[i].Unborn? || PastDeadline(readers[i]))
    && (main.Creating? || main.Opening? || main.JoinReaders? || main.Done?)
    && (main.JoinReaders? ==> main.i <= |readers| && forall i :: 0 <= i < main.i ==> readers[i].Exited?)
    && (main.Done? ==> forall i :: 0 <= i < |readers| ==> readers[i].Exited?)
  }

  ghost predicate ReadInv(cfg: Config, s: State) {
    && Sized(cfg, s)
    && Placed(s.readers, s.main)
    && Gates(cfg.n, s.g, s.readers, s.main)
    && Totals(cfg, s.readers, s.blocksRead, s.verifyFail, s.checksum)
  }

  lemma StartInv(cfg: Config)
    ensures ReadInv(cfg, Start(cfg))
  {
    var s := Start(cfg);
    G.InitInv(cfg.n);
    SumToZero(BlocksBy(cfg, s.readers), cfg.n);
    SumToZero(FailBy(cfg, s.readers), cfg.n);
    SumToZero(SumBy(cfg, s.readers), cfg.n);
  }

  lemma ReaderKeepsTotals(cfg: Config, s: State, i: nat)
    requires ReadInv(cfg, s) && CanMove(cfg, s, Read(i))
    ensures var t := ApplyReader(cfg, s, i);
            Totals(cfg, t.readers, t.blocksRead, t.verifyFail, t.checksum)
  {
    hide Gates;
    assert LocalOk(cfg, s.readers[i], i);
    hide Totals;
    if s.readers[i].AddBlocks? {
      AddBlocksKeepsTotals(cfg, s.readers, s.blocksRead, s.verifyFail, s.checksum, i);
    } else if s.readers[i].AddFail? {
      AddFailKeepsTotals(cfg, s.readers, s.blocksRead, s.verifyFail, s.checksum, i);
    } else if s.readers[i].AddSum? {
      AddSumKeepsTotals(cfg, s.readers, s.blocksRead, s.verifyFail, s.checksum, i);
    } else {
      var pc := ApplyReader(cfg, s, i).readers[i];
      MoveKeepsTotals(cfg, s.readers, s.blocksRead, s.verifyFail, s.checksum, i, pc);
    }
  }

  lemma ReaderKeepsGates(cfg: Config, s: State, i: nat)
    requires ReadInv(cfg, s) && CanMove(cfg, s, Read(i))
    ensures var t := ApplyReader(cfg, s, i); Gates(cfg.n, t.g, t.readers, t.main)
  {
    hide Totals;
    if s.readers[i].Gating? {
      WaitKeepsGates(cfg.n, s.g, s.readers, s.main, i);
    } else {
      assert WaiterOk(s.readers[i], s.g.waiters[i]);
      hide Gates;
      MoveKeepsGates(cfg.n, s.g, s.readers, s.main, i, ApplyReader(cfg, s, i).readers[i]);
    }
  }

  lemma ReaderKeepsPlaced(cfg: Config, s: State, i: nat)
    requires ReadInv(cfg, s) && CanMove(cfg, s, Read(i))
    ensures var t := ApplyReader(cfg, s, i); Sized(cfg, t) && Placed(t.readers, t.main)
  {
    hide Totals;
    hide Gates;
  }

  lemma LeadKeepsGates(cfg: Config, s: State)
    requires ReadInv(cfg, s) && CanMove(cfg, s, Lead)
    ensures var t := Advance(cfg, s); Gates(cfg.n, t.g, t.readers, t.main)
  {
    hide Totals;
    hide G.Inv;
    if s.main.Creating? && s.main.i < cfg.n {
      G.StepKeepsInv(s.g, G.Create);
    } else if s.main.Opening? {
      G.StepKeepsInv(s.g, G.Open);
    }
  }

  lemma LeadKeepsRest(cfg: Config, s: State)
    requires ReadInv(cfg, s) && CanMove(cfg, s, Lead)
    ensures var t := Advance(cfg, s);
            Sized(cfg, t) && Placed(t.readers, t.main)
            && Totals(cfg, t.readers, t.blocksRead, t.verifyFail, t.checksum)
  {
    hide Totals;
    if s.main.Creating? && s.main.i < cfg.n {
      MoveKeepsTotals(cfg, s.readers, s.blocksRead, s.verifyFail, s.checksum, s.main.i, Gating);
    }
  }

  lemma WakeKeepsGates(n: nat, g: G.State, readers: seq<ReaderPc>, main: MainPc, t: G.Thread)
    requires Gates(n, g, readers, main) && G.Enabled(g, G.Spurious(t))
    ensures Gates(n, G.Apply(g, G.Spurious(t)), readers, main)
  {
    hide G.Inv;
    G.StepKeepsInv(g, G.Spurious(t));
  }

  /** Every step of every thread keeps the invariant. */
  lemma StepKeepsInv(cfg: Config, s: State, a: Move)
    requires ReadInv(cfg, s) && CanMove(cfg, s, a)
    ensures ReadInv(cfg, Step(cfg, s, a))
  {
    hide Gates;
    hide Totals;
    hide Placed;
    match a
    case Read(i) =>
      ReaderKeepsTotals(cfg, s, i);
      ReaderKeepsGates(cfg, s, i);
      ReaderKeepsPlaced(cfg, s, i);
    case Lead =>
      LeadKeepsGates(cfg, s);
      LeadKeepsRest(cfg, s);
    case Wake(t) => WakeKeepsGates(cfg.n, s.g, s.readers, s.main, t);
  }

  lemma {:induction false} ReachableInv(cfg: Config, ex: seq<State>, acts: seq<Move>, k: nat)
    requires Execution(cfg, ex, acts) && k < |ex|
    ensures ReadInv(cfg, ex[k])
  {
    hide ReadInv;
    if k == 0 {
      StartInv(cfg);
    } else {
      ReachableInv(cfg, ex, acts, k - 1);
      assert StepAt(cfg, ex, acts, k - 1);
      StepKeepsInv(cfg, ex[k - 1], acts[k - 1]);
    }
  }

  // ----- No deadlock --------------------------------------------------------------

  /** A thread inside the gate's mutex can move. */
  lemma HolderMoves(cfg: Config, s: State) returns (a: Move)
    requires ReadInv(cfg, s) && s.g.holder.Some? && (s.main.Opening? || s.main.JoinReaders?)
    ensures !a.Wake? && CanMove(cfg, s, a)
  {
    hide Totals;
    match s.g.holder.value
    case Waiter(j) =>
      assert WaiterOk(s.readers[j], s.g.waiters[j]);
      a := Read(j);
    case Opener => a := Lead;
  }

  /** A thread that the gate lets move can move. */
  lemma GateMoves(cfg: Config, s: State) returns (a: Move)
    requires ReadInv(cfg, s) && G.CanMove(s.g) && (s.main.Opening? || s.main.JoinReaders?)
    ensures !a.Wake? && CanMove(cfg, s, a)
  {
    hide Totals;
    hide G.Inv;
    if G.Enabled(s.g, G.Open) {
      a := Lead;
    } else {
      var i :| 0 <= i < |s.g.waiters| && G.Enabled(s.g, G.Wait(i));
      assert WaiterOk(s.readers[i], s.g.waiters[i]);
      a := Read(i);
    }
  }

  /** In every unfinished state some thread can move without a spurious wakeup. */
  lemma SomeMove(cfg: Config, s: State) returns (a: Move)
    requires ReadInv(cfg, s) && !s.main.Done?
    ensures !a.Wake? && CanMove(cfg, s, a)
  {
    hide Totals;
    if s.main.Creating? {
      a := Lead;
    } else if s.g.holder.Some? {
      a := HolderMoves(cfg, s);
    } else if i: nat :| i < |s.g.waiters| && s.g.waiters[i].Away? {
      assert G.Enabled(s.g, G.Wait(i));
      a := GateMoves(cfg, s);
    } else if s.g.opener.Outside? {
      a := Lead;
    } else {
      G.NoDeadlock(s.g);
      if G.CanMove(s.g) {
        a := GateMoves(cfg, s);
      } else {
        a := AllThroughMoves(cfg, s);
      }
    }
  }

  lemma AllThroughMoves(cfg: Config, s: State) returns (a: Move)
    requires ReadInv(cfg, s) && s.main.JoinReaders?
    requires forall i :: 0 <= i < |s.g.waiters| ==> s.g.waiters[i].Through?
    ensures !a.Wake? && CanMove(cfg, s, a)
  {
    hide Totals;
    hide G.Inv;
    var i := s.main.i;
    a := if i < cfg.n && !s.readers[i].Exited? then Read(i) else Lead;
    if i < cfg.n { assert WaiterOk(s.readers[i], s.g.waiters[i]); }
  }

  /** A cumulative read never deadlocks. */
  lemma NeverStuck(cfg: Config, ex: seq<State>, acts: seq<Move>, k: nat)
    requires Execution(cfg, ex, acts) && k < |ex| && !ex[k].main.Done?
    ensures Sized(cfg, ex[k]) && exists a: Move :: !a.Wake? && CanMove(cfg, ex[k], a)
  {
    ReachableInv(cfg, ex, acts, k);
    var a := SomeMove(cfg, ex[k]);
    hide Execution;
  }

  // ----- What a cumulative read finds ---------------------------------------------

  /** No block is read before the gate is open, and then every reader has been created
      and has arrived. */
  lemma ReadsAfterOpen(cfg: Config, ex: seq<State>, acts: seq<Move>, k: nat, i: nat)
    requires Execution(cfg, ex, acts) && k < |ex| && i < cfg.n
    ensures |ex[k].readers| == cfg.n
    ensures !ex[k].readers[i].Unborn? && !ex[k].readers[i].Gating? ==>
              ex[k].g.open && |ex[k].g.waiters| == cfg.n
              && forall j :: 0 <= j < cfg.n ==> G.HasCounted(ex[k].g.waiters[j])
  {
    ReachableInv(cfg, ex, acts, k);
    var s := ex[k];
    hide Totals;
    G.CountedAll(s.g.waiters);
    if i < |s.g.waiters| {
      assert WaiterOk(s.readers[i], s.g.waiters[i]);
    }
  }

  /** The bytes at the address `const_block_ptr` gives, as far as the store reaches. */
  function BlockAt(c: M.Cfg, sizes: M.Sizes, bytes: seq<byte>, req: nat, blk: nat): seq<byte> {
    var off := M.BlockPtr(c, sizes.chunkBytes, req, blk);
    if off + c.blockBytes <= |bytes| then bytes[off..off + c.blockBytes] else []
  }

  predicate BlockPasses(c: M.Cfg, verify: bool, src: seq<byte>, req: nat, blk: nat)
    requires M.Parsed(c)
  {
    verify ==> M.VerifyBlock(c, src, req, blk)
  }

  function ReadConfig(c: M.Cfg, sizes: M.Sizes, bytes: seq<byte>, turn: nat, verify: bool): Config
    requires M.Parsed(c)
  {
    Config(c.requests, M.Blocks(c, turn), 1.0,
           (req: nat, blk: nat) => BlockPasses(c, verify, BlockAt(c, sizes, bytes, req, blk), req, blk),
           (req: nat, blk: nat) => EndBytes(BlockAt(c, sizes, bytes, req, blk)))
  }

  /** What a reader finds at the computed address. */
  lemma BlockReads(c: M.Cfg, sizes: M.Sizes, bytes: seq<byte>, turn: nat, verify: bool, req: nat, blk: nat)
    requires M.Parsed(c) && M.SizeCheck(c) == Some(sizes) && sizes.storeBytes <= |bytes| && turn <= c.rounds
    requires req < c.requests && blk < M.Blocks(c, turn)
    ensures var src := Slot(bytes, c.blockBytes, M.SlotOf(c, req, blk));
            && BlockAt(c, sizes, bytes, req, blk) == src
            && (BlockPasses(c, verify, src, req, blk) <==> verify ==> M.Intact(c, src, req, blk))
  {
    hide M.SizeCheck;
    hide M.VerifyBlock;
    hide M.Intact;
    hide M.Blocks;
    hide M.BlockPtr;
    hide M.SlotOf;
    hide EndBytes;
    M.ReadFits(c, sizes, turn);
    M.BlockToRead(c, bytes, sizes, req, blk);
  }

  lemma RequestReport(c: M.Cfg, sizes: M.Sizes, bytes: seq<byte>, turn: nat, verify: bool, req: nat)
    requires M.Parsed(c) && M.SizeCheck(c) == Some(sizes) && sizes.storeBytes <= |bytes| && turn <= c.rounds
    requires req < c.requests
    ensures var cfg, n := ReadConfig(c, sizes, bytes, turn, verify), M.Blocks(c, turn);
            && ST.BlockTotal(cfg, req) == M.EndsOf(c, bytes, req, n)
            && ST.Failing(cfg, req, n) == if verify then M.Damaged(c, bytes, req, n) else {}
  {
    var cfg, n := ReadConfig(c, sizes, bytes, turn, verify), M.Blocks(c, turn);
    var f := (b: nat) => cfg.blockSum(req, b);
    var g := (blk: nat) => EndBytes(Slot(bytes, c.blockBytes, M.SlotOf(c, req, blk)));
    hide M.SizeCheck;
    hide M.Blocks;
    hide M.Intact;
    hide M.SlotOf;
    hide Slot;
    hide BlockAt;
    hide BlockPasses;
    hide EndBytes;
    forall b: nat | b < n
      ensures f(b) == g(b)
      ensures cfg.blockOk(req, b) <==> verify ==> M.Intact(c, Slot(bytes, c.blockBytes, M.SlotOf(c, req, b)), req, b)
    {
      BlockReads(c, sizes, bytes, turn, verify, req, b);
    }
    SumToSame(f, g, n);
  }

  /** The totals of all readers are what the cumulative read should find in the store. */
  lemma SumTotal(c: M.Cfg, sizes: M.Sizes, bytes: seq<byte>, turn: nat, verify: bool)
    requires M.Parsed(c) && M.SizeCheck(c) == Some(sizes) && sizes.storeBytes <= |bytes| && turn <= c.rounds
    ensures ST.TotalSum(ReadConfig(c, sizes, bytes, turn, verify))
            == M.EndSum(c, bytes, c.requests, M.Blocks(c, turn))
  {
    var cfg, n := ReadConfig(c, sizes, bytes, turn, verify), M.Blocks(c, turn);
    var sums := (req: nat) => M.EndsOf(c, bytes, req, n);
    hide M.SizeCheck;
    hide M.Blocks;
    hide M.EndsOf;
    hide M.Damaged;
    hide ST.BlockTotal;
    hide ST.Failing;
    forall i: nat | i < c.requests ensures ST.BlockTotal(cfg, i) == sums(i) {
      RequestReport(c, sizes, bytes, turn, verify, i);
    }
    hide ST.TotalSum;
    ST.TotalSumIs(cfg, sums);
  }

  lemma FailTotal(c: M.Cfg, sizes: M.Sizes, bytes: seq<byte>, turn: nat, verify: bool)
    requires M.Parsed(c) && M.SizeCheck(c) == Some(sizes) && sizes.storeBytes <= |bytes| && turn <= c.rounds
    ensures ST.TotalFail(ReadConfig(c, sizes, bytes, turn, verify))
            == if verify then M.DamagedBlocks(c, bytes, c.requests, M.Blocks(c, turn)) else 0
  {
    var cfg, n := ReadConfig(c, sizes, bytes, turn, verify), M.Blocks(c, turn);
    var damaged, none := (req: nat) => |M.Damaged(c, bytes, req, n)|, (req: nat) => 0;
    hide M.SizeCheck;
    hide M.Blocks;
    hide M.EndsOf;
    hide M.Damaged;
    hide ST.BlockTotal;
    hide ST.Failing;
    var fails := if verify then damaged else none;
    forall i: nat | i < c.requests ensures |ST.Failing(cfg, i, n)| == fails(i) {
      RequestReport(c, sizes, bytes, turn, verify, i);
    }
    hide ST.TotalFail;
    ST.TotalFailIs(cfg, fails);
    SumToZero(none, c.requests);
  }

  /** Over any store, every interleaving of a cumulative read after turn `turn` ends with
      the report that belongs to the store: all blocks so far, exactly the damaged ones as
      failures, and the sum of the end bytes modulo 2^64. */
  lemma EveryRead(c: M.Cfg, sizes: M.Sizes, bytes: seq<byte>, turn: nat, verify: bool,
                  ex: seq<State>, acts: seq<Move>, k: nat)
    requires M.Parsed(c) && M.SizeCheck(c) == Some(sizes) && sizes.storeBytes <= |bytes| && turn <= c.rounds
    requires Execution(ReadConfig(c, sizes, bytes, turn, verify), ex, acts) && k < |ex| && ex[k].main.Done?
    ensures M.Report(ex[k].blocksRead, ex[k].verifyFail, ex[k].checksum)
            == M.ReportOf(c, bytes, M.Blocks(c, turn), verify)
  {
    var cfg, n := ReadConfig(c, sizes, bytes, turn, verify), M.Blocks(c, turn);
    hide M.SizeCheck;
    hide M.Blocks;
    hide M.DamagedBlocks;
    hide M.EndSum;
    hide Execution;
    hide Gates;
    hide Totals;
    hide ST.TotalFail;
    hide ST.TotalSum;
    hide BlockAt;
    hide BlockPasses;
    ReachableInv(cfg, ex, acts, k);
    var s := ex[k];
    ST.TotalsAtEnd(cfg, s.readers, s.blocksRead, s.verifyFail, s.checksum);
    SumTotal(c, sizes, bytes, turn, verify);
    FailTotal(c, sizes, bytes, turn, verify);
    M.ReadFits(c, sizes, turn);
    BlocksNumber(c.requests, n);
    M.DamagedBlocksAtMost(c, bytes, c.requests, n);
    ModSmall(ST.TotalFail(cfg));
  }

  /** After the turn has been written that is all blocks, no failure, and the checksum the
      layout determines. */
  lemma EveryReadClean(c: M.Cfg, sizes: M.Sizes, bytes: seq<byte>, turn: nat, verify: bool,
                       ex: seq<State>, acts: seq<Move>, k: nat)
    requires M.Parsed(c) && M.SizeCheck(c) == Some(sizes) && sizes.storeBytes <= |bytes| && turn <= c.rounds
    requires M.Written(c, bytes, 0, At(M.Blocks(c, turn), c.requests))
    requires Execution(ReadConfig(c, sizes, bytes, turn, verify), ex, acts) && k < |ex| && ex[k].main.Done?
    ensures M.Report(ex[k].blocksRead, ex[k].verifyFail, ex[k].checksum) == M.Expected(c, turn)
  {
    hide M.SizeCheck;
    hide M.Written;
    hide M.Blocks;
    hide Execution;
    EveryRead(c, sizes, bytes, turn, verify, ex, acts, k);
    M.CleanReport(c, sizes, bytes, turn, verify);
  }

  lemma BlocksNumber(requests: nat, blocks: nat)
    requires At(requests, blocks) < WORD
    ensures (requests * blocks) % WORD == At(requests, blocks)
  {
    ModSmall(At(requests, blocks));
  }
}
