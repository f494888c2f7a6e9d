/** What every finite execution of a sweep guarantees. */
module SweepTheorems {
  import opened Wrappers
  import opened DistinctIds
  import opened Word64
  import opened Sums
  import Q = MpscProtocol
  import QT = MpscTheorems
  import G = StartGate
  import L = LinkTimeline
  import opened SweepModel
  import opened SweepSafety

  ghost predicate StepAt(cfg: Config, ex: seq<State>, acts: seq<Action>, i: nat)
    requires i < |acts| && i + 1 < |ex|
  {
    Sized(cfg, ex[i]) && Enabled(cfg, ex[i], acts[i]) && ex[i + 1] == Apply(cfg, ex[i], acts[i])
  }

  /** A run of the sweep from its start, under any scheduling and any clock. */
  ghost predicate Execution(cfg: Config, ex: seq<State>, acts: seq<Action>) {
    && cfg.service > 0.0
    && |ex| == |acts| + 1
    && ex[0].clock >= 0.0 && ex[0] == Init(cfg, ex[0].clock, ex[0].spurious)
    && forall i :: 0 <= i < |acts| ==> StepAt(cfg, ex, acts, i)
  }

  lemma {:induction false} ReachableInv(cfg: Config, ex: seq<State>, acts: seq<Action>, k: nat)
    requires Execution(cfg, ex, acts) && k < |ex|
    ensures Inv(cfg, ex[k])
  {
    hide Inv;
    if k == 0 {
      InitInv(cfg, ex[0].clock, ex[0].spurious);
    } else {
      ReachableInv(cfg, ex, acts, k - 1);
      assert StepAt(cfg, ex, acts, k - 1);
      StepKeepsInv(cfg, ex[k - 1], acts[k - 1]);
    }
  }

  // ----- Every response exactly once ------------------------------------------

  lemma SignalsArePrefix(cfg: Config, s: State)
    requires Inv(cfg, s)
    ensures Distinct(s.signals, cfg.n) && s.signals <= s.popped
  {
    hide Nodes;
    hide Booked;
    hide Gated;
    hide Gates;
    hide Totals;
    assert forall k :: 0 <= k < |s.signals| ==> s.signals[k] == s.popped[k];
  }

  /** In every run: no response flag is raised twice, each is raised only after
      its reader has finished its enqueue, and the RNIC leaves its loop only after
      exactly n requests, one of each reader. */
  lemma ResponsesExactlyOnce(cfg: Config, ex: seq<State>, acts: seq<Action>, k: nat)
    requires Execution(cfg, ex, acts) && k < |ex|
    ensures var s := ex[k];
            && Distinct(s.signals, cfg.n)
            && |s.flags| == |s.readers| == cfg.n
            && (forall i :: 0 <= i < cfg.n ==> (s.flags[i] <==> i in s.signals))
            && (forall i: nat :: i < cfg.n && i in s.signals ==> Enqueued(s.readers[i]))
            && (s.rnic.Finished? ==> s.done == cfg.n && forall i: nat :: i < cfg.n ==> i in s.signals)
  {
    ReachableInv(cfg, ex, acts, k);
    var s := ex[k];
    SignalsArePrefix(cfg, s);
    Pigeonhole(s.signals, cfg.n);
    forall i: nat | i < cfg.n && i in s.signals ensures Enqueued(s.readers[i]) {
      SignalledIsEnqueued(cfg, s, i);
    }
  }

  lemma SignalledIsEnqueued(cfg: Config, s: State, i: nat)
    requires Inv(cfg, s) && i < cfg.n && i in s.popped
    ensures Enqueued(s.readers[i])
  {
    assert NodeOk(s.q, s.readers[i], s.popped, i);
    if s.readers[i].Enqueuing? && s.q.prods[i].Swapped? {
      QT.SwappedInQueue(s.q, i);
    }
  }

  // ----- The bandwidth gate ---------------------------------------------------

  /** When the gate is open every reader has been served and has waited out its
      deadline. */
  lemma OpenMeansServed(cfg: Config, s: State)
    requires Inv(cfg, s) && s.g.open
    ensures forall i :: 0 <= i < cfg.n ==> PastDeadline(s.readers[i]) && s.flags[i] && s.clock >= s.expire[i]
  {
    hide Nodes;
    hide Served;
    hide Booked;
    hide Totals;
    G.CountedAll(s.g.waiters);
    forall i | 0 <= i < cfg.n ensures PastDeadline(s.readers[i]) {
      assert WaiterOk(s.readers[i], s.g.waiters[i]);
    }
  }

  lemma LastDeadline(n: nat, service: real, link: L.Link, expire: seq<real>, popped: seq<nat>, nows: seq<real>)
    requires Booked(n, service, link, expire, popped, nows) && |nows| == |popped| == n > 0
    ensures popped[n - 1] < n && expire[popped[n - 1]] >= nows[0] + n as real * service
  {
    L.FullServiceTime(nows, service);
    assert nows[..n - 1 + 1] == nows;
  }

  lemma AllServed(cfg: Config, s: State)
    requires Inv(cfg, s) && forall i :: 0 <= i < cfg.n ==> s.flags[i]
    ensures |s.nows| == |s.popped| == cfg.n
  {
    SignalsArePrefix(cfg, s);
    Pigeonhole(s.signals, cfg.n);
    hide Nodes;
    hide Booked;
    hide Gated;
    hide Gates;
    hide Totals;
    Pigeonhole(s.popped, cfg.n);
  }

  lemma GateOpensLateAt(cfg: Config, s: State)
    requires Inv(cfg, s) && s.g.open && cfg.n > 0
    ensures |s.nows| == cfg.n && s.clock >= s.nows[0] + cfg.n as real * cfg.service
  {
    hide Nodes;
    hide Served;
    hide Booked;
    hide Gates;
    hide Totals;
    OpenMeansServed(cfg, s);
    AllServed(cfg, s);
    LastDeadline(cfg.n, cfg.service, s.link, s.expire, s.popped, s.nows);
    assert s.clock >= s.expire[s.popped[cfg.n - 1]];
  }

  /** In every run the gate opens no earlier than the first dequeue plus n service
      times: the simulated link bounds the measured bandwidth. */
  lemma GateOpensLate(cfg: Config, ex: seq<State>, acts: seq<Action>, k: nat)
    requires Execution(cfg, ex, acts) && k < |ex| && cfg.n > 0 && ex[k].g.open
    ensures |ex[k].nows| == cfg.n
    ensures ex[k].clock >= ex[k].nows[0] + cfg.n as real * cfg.service
  {
    ReachableInv(cfg, ex, acts, k);
    GateOpensLateAt(cfg, ex[k]);
  }

  /** No reader reads the store before the gate is open. */
  lemma ReadsAfterOpen(cfg: Config, ex: seq<State>, acts: seq<Action>, k: nat, i: nat)
    requires Execution(cfg, ex, acts) && k < |ex| && i < cfg.n
    ensures |ex[k].readers| == cfg.n
    ensures PastDeadline(ex[k].readers[i]) && !ex[k].readers[i].Gating? ==> ex[k].g.open
  {
    ReachableInv(cfg, ex, acts, k);
    var s := ex[k];
    hide Nodes;
    hide Totals;
    if i < |s.g.waiters| {
      assert WaiterOk(s.readers[i], s.g.waiters[i]);
    }
  }

  // ----- Totals ---------------------------------------------------------------

  /** The blocks of request `i`, below `blk`, that do not verify. */
  function Failing(cfg: Config, i: nat, blk: nat): set<nat> {
    set b: nat | b < blk && !cfg.blockOk(i, b)
  }

  /** How many blocks do not verify, and what all blocks add up to. */
  function TotalFail(cfg: Config): nat {
    SumTo((i: nat) => |Failing(cfg, i, cfg.blocks)|, cfg.n)
  }

  function TotalSum(cfg: Config): nat {
    SumTo((i: nat) => BlockTotal(cfg, i), cfg.n)
  }

  function BlockTotal(cfg: Config, i: nat): nat {
    SumTo((b: nat) => cfg.blockSum(i, b), cfg.blocks)
  }

  /** A reader counts exactly the blocks that do not verify. */
  lemma {:induction false} LocalFailIs(cfg: Config, i: nat, blk: nat)
    ensures LocalFail(cfg, i, blk) == |Failing(cfg, i, blk)| % WORD
  {
    if blk > 0 {
      LocalFailIs(cfg, i, blk - 1);
      var before, after := Failing(cfg, i, blk - 1), Failing(cfg, i, blk);
      if cfg.blockOk(i, blk - 1) {
        assert after == before;
      } else {
        assert after == before + {blk - 1};
        ModAdd(|before|, 1);
      }
    }
  }

  /** A reader's wrapped sum is its full sum modulo 2^64. */
  lemma {:induction false} LocalSumIs(cfg: Config, i: nat, blk: nat)
    ensures LocalSum(cfg, i, blk) == SumTo((b: nat) => cfg.blockSum(i, b), blk) % WORD
  {
    var f := (b: nat) => cfg.blockSum(i, b);
    if blk > 0 {
      LocalSumIs(cfg, i, blk - 1);
      ModAdd(SumTo(f, blk - 1), f(blk - 1));
    }
  }

  /** When the main thread is done, every reader has exited and the shared counters
      are the same in every interleaving: all blocks, the number of blocks that do not
      verify, and the sum over all blocks, modulo 2^64. */
  lemma FinalTotals(cfg: Config, ex: seq<State>, acts: seq<Action>, k: nat)
    requires Execution(cfg, ex, acts) && k < |ex| && ex[k].main.Done?
    ensures ex[k].blocksRead == (cfg.n * cfg.blocks) % WORD
    ensures ex[k].verifyFail == TotalFail(cfg) % WORD
    ensures ex[k].checksum == TotalSum(cfg) % WORD
  {
    ReachableInv(cfg, ex, acts, k);
    var s := ex[k];
    hide Nodes;
    hide Served;
    hide Booked;
    hide Gates;
    hide Totals;
    TotalsAtEnd(cfg, s.readers, s.blocksRead, s.verifyFail, s.checksum);
  }

  /** The counters when every reader has made its additions. */
  lemma TotalsAtEnd(cfg: Config, readers: seq<ReaderPc>, b: nat, f: nat, c: nat)
    requires Totals(cfg, readers, b, f, c) && forall i :: 0 <= i < cfg.n ==> readers[i].Exited?
    ensures b == (cfg.n * cfg.blocks) % WORD && f == TotalFail(cfg) % WORD && c == TotalSum(cfg) % WORD
  {
    SumToConstant(BlocksBy(cfg, readers), cfg.n, cfg.blocks);
    var fails := (i: nat) => |Failing(cfg, i, cfg.blocks)|;
    var sums := (i: nat) => BlockTotal(cfg, i);
    hide LocalFail;
    hide LocalSum;
    hide Failing;
    hide SumTo;
    forall i: nat | i < cfg.n
      ensures FailBy(cfg, readers)(i) == fails(i) % WORD && SumBy(cfg, readers)(i) == sums(i) % WORD
    {
      LocalFailIs(cfg, i, cfg.blocks);
      LocalSumIs(cfg, i, cfg.blocks);
    }
    SumOfWrapped(FailBy(cfg, readers), fails, cfg.n);
    SumOfWrapped(SumBy(cfg, readers), sums, cfg.n);
  }

  /** The totals, from the count and the sum of each reader. */
  lemma TotalFailIs(cfg: Config, f: nat -> nat)
    requires forall i: nat :: i < cfg.n ==> |Failing(cfg, i, cfg.blocks)| == f(i)
    ensures TotalFail(cfg) == SumTo(f, cfg.n)
  {
    hide Failing;
    SumToSame((i: nat) => |Failing(cfg, i, cfg.blocks)|, f, cfg.n);
  }

  lemma TotalSumIs(cfg: Config, f: nat -> nat)
    requires forall i: nat :: i < cfg.n ==> BlockTotal(cfg, i) == f(i)
    ensures TotalSum(cfg) == SumTo(f, cfg.n)
  {
    hide BlockTotal;
    SumToSame((i: nat) => BlockTotal(cfg, i), f, cfg.n);
  }

  lemma NoFail(cfg: Config)
    requires forall i: nat, b: nat :: i < cfg.n && b < cfg.blocks ==> cfg.blockOk(i, b)
    ensures TotalFail(cfg) == 0
  {
    var f := (i: nat) => |Failing(cfg, i, cfg.blocks)|;
    forall i: nat | i < cfg.n ensures f(i) == 0 { assert Failing(cfg, i, cfg.blocks) == {}; }
    SumToZero(f, cfg.n);
  }

  /** A sweep over a store in which every block verifies ends with no failures. */
  lemma CleanSweep(cfg: Config, ex: seq<State>, acts: seq<Action>, k: nat)
    requires Execution(cfg, ex, acts) && k < |ex| && ex[k].main.Done?
    requires forall i: nat, b: nat :: i < cfg.n && b < cfg.blocks ==> cfg.blockOk(i, b)
    ensures ex[k].verifyFail == 0
  {
    FinalTotals(cfg, ex, acts, k);
    NoFail(cfg);
  }
}
