/**
 The phase-based strided sweep of `measureStrideRead` and `measureStrideWrite` over the
 region of one thread, as the sequence of 32-byte accesses it makes.
 */
module StrideCover {
  import opened Word64

  const LANE: nat := 32
  const UPDATE_INTERVAL: nat := 1000

  // ----- The accesses -----------------------------------------------------------

  /** The accesses in the block at `offset`, from position `b` of the block on. */
  function BlockTrace(size: nat, block: nat, offset: nat, b: nat): seq<nat>
    decreases block - b
  {
    if b >= block then [] else
      (if offset + b + LANE <= size then [offset + b] else []) + BlockTrace(size, block, offset, b + LANE)
  }

  /** The blocks of one phase, from `offset` on. */
  function PhaseTrace(size: nat, stride: nat, block: nat, offset: nat): seq<nat>
    requires block > 0
    decreases size - offset
  {
    if offset >= size then [] else
      BlockTrace(size, block, offset, 0) + PhaseTrace(size, stride, block, offset + (stride + block))
  }

  /** The phases from `phase` on. */
  function Trace(size: nat, stride: nat, block: nat, phase: nat): seq<nat>
    requires block > 0
    decreases stride + block - phase
  {
    if phase >= stride + block then [] else
      PhaseTrace(size, stride, block, phase) + Trace(size, stride, block, phase + block)
  }

  ghost predicate Ascending(trace: seq<nat>, lo: nat, hi: nat) {
    && (forall i :: 0 <= i < |trace| ==> lo <= trace[i] < hi)
    && (forall i, j :: 0 <= i < j < |trace| ==> trace[i] < trace[j])
  }

  lemma AscendingJoin(p: seq<nat>, q: seq<nat>, lo: nat, mid: nat, hi: nat)
    requires lo <= mid <= hi && Ascending(p, lo, mid) && Ascending(q, mid, hi)
    ensures Ascending(p + q, lo, hi)
  {
  }

  lemma {:induction false} BlockAscends(size: nat, block: nat, offset: nat, b: nat)
    ensures Ascending(BlockTrace(size, block, offset, b), offset + b, offset + block)
    ensures Ascending(BlockTrace(size, block, offset, b), offset + b, size)
    decreases block - b
  {
    if b < block {
      var rest := BlockTrace(size, block, offset, b + LANE);
      BlockAscends(size, block, offset, b + LANE);
    }
  }

  /** A phase goes through the region once, upwards. */
  lemma {:induction false} PhaseAscends(size: nat, stride: nat, block: nat, offset: nat)
    requires block > 0
    ensures Ascending(PhaseTrace(size, stride, block, offset), offset, size)
    decreases size - offset
  {
    hide BlockTrace;
    if offset < size {
      var next := offset + (stride + block);
      PhaseAscends(size, stride, block, next);
      BlockAscends(size, block, offset, 0);
      hide PhaseTrace;
      if next < size {
        AscendingJoin(BlockTrace(size, block, offset, 0), PhaseTrace(size, stride, block, next), offset, next, size);
      }
    }
  }

  /** How often offset `x` is accessed. */
  function Count(trace: seq<nat>, x: nat): nat {
    multiset(trace)[x]
  }

  lemma CountSum(a: seq<nat>, b: seq<nat>, x: nat)
    ensures Count(a + b, x) == Count(a, x) + Count(b, x)
  {
  }

  /** What has been done so far, followed by what is left, makes up all accesses. */
  ghost predicate Ahead(done: seq<nat>, left: seq<nat>, all: seq<nat>) {
    done + left == all
  }

  /** The bytes reported and those still to be reported are those accessed. */
  ghost predicate Tallied(progress: nat, localBytes: nat, trace: seq<nat>) {
    progress + localBytes == LANE * |trace|
  }

  /** The loops, with the progress updates batched. */
  method Sweep(size: nat, stride: nat, block: nat) returns (trace: seq<nat>, progress: nat)
    requires block > 0
    ensures trace == Trace(size, stride, block, 0)
    ensures progress == LANE * |trace|
  {
    hide BlockTrace;
    hide PhaseTrace;
    hide Trace;
    hide Ahead;
    hide Tallied;
    ghost var all := Trace(size, stride, block, 0);
    trace, progress := [], 0;
    var localBytes: nat, accessCount: nat := 0, 0;
    var phase := 0;
    Start(all);
    while phase < stride + block
      invariant Ahead(trace, Trace(size, stride, block, phase), all)
      invariant Tallied(progress, localBytes, trace)
      decreases stride + block - phase
    {
      ghost var later := Trace(size, stride, block, phase + block);
      TraceStep(size, stride, block, phase);
      var offset := phase;
      while offset < size
        invariant Ahead(trace, PhaseTrace(size, stride, block, offset) + later, all)
        invariant Tallied(progress, localBytes, trace)
        decreases size - offset
      {
        ghost var rest := PhaseTrace(size, stride, block, offset + (stride + block));
        PhaseStep(size, stride, block, offset);
        var b := 0;
        while b < block
          invariant Ahead(trace, (BlockTrace(size, block, offset, b) + rest) + later, all)
          invariant Tallied(progress, localBytes, trace)
          decreases block - b
        {
          ghost var next := BlockTrace(size, block, offset, b + LANE);
          BlockStep(size, block, offset, b);
          Empty(next);
          if offset + b + LANE <= size {
            Shift(trace, offset + b, next, rest, later, all);
            Tally(progress, localBytes, trace, offset + b);
            trace := trace + [offset + b];
            localBytes := localBytes + LANE;
            accessCount := accessCount + 1;
            if accessCount % UPDATE_INTERVAL == 0 {
              progress := progress + localBytes;
              localBytes := 0;
            }
          }
          b := b + LANE;
        }
        BlockStep(size, block, offset, b);
        Empty(rest);
        offset := offset + (stride + block);
      }
      PhaseStep(size, stride, block, offset);
      Empty(later);
      phase := phase + block;
    }
    TraceStep(size, stride, block, phase);
    Finish(trace, all, progress, localBytes);
    progress := progress + localBytes;
  }

  lemma Start(all: seq<nat>)
    ensures Ahead([], all, all) && Tallied(0, 0, [])
  {
  }

  lemma Finish(trace: seq<nat>, all: seq<nat>, progress: nat, localBytes: nat)
    requires Ahead(trace, [], all) && Tallied(progress, localBytes, trace)
    ensures trace == all && progress + localBytes == LANE * |trace|
  {
  }

  /** One more access, reported now or later. */
  lemma Tally(progress: nat, localBytes: nat, trace: seq<nat>, x: nat)
    requires Tallied(progress, localBytes, trace)
    ensures Tallied(progress, localBytes + LANE, trace + [x])
    ensures Tallied(progress + (localBytes + LANE), 0, trace + [x])
  {
  }

  lemma Empty(s: seq<nat>)
    ensures [] + s == s == s + []
  {
  }

  lemma BlockStep(size: nat, block: nat, offset: nat, b: nat)
    ensures BlockTrace(size, block, offset, b) ==
              if b >= block then [] else
                (if offset + b + LANE <= size then [offset + b] else []) + BlockTrace(size, block, offset, b + LANE)
  {
  }

  lemma PhaseStep(size: nat, stride: nat, block: nat, offset: nat)
    requires block > 0
    ensures PhaseTrace(size, stride, block, offset) ==
              if offset >= size then [] else
                BlockTrace(size, block, offset, 0) + PhaseTrace(size, stride, block, offset + (stride + block))
  {
  }

  lemma TraceStep(size: nat, stride: nat, block: nat, phase: nat)
    requires block > 0
    ensures Trace(size, stride, block, phase) ==
              if phase >= stride + block then [] else
                PhaseTrace(size, stride, block, phase) + Trace(size, stride, block, phase + block)
  {
  }

  lemma Shift(trace: seq<nat>, x: nat, next: seq<nat>, rest: seq<nat>, later: seq<nat>, all: seq<nat>)
    requires Ahead(trace, (([x] + next) + rest) + later, all)
    ensures Ahead(trace + [x], (next + rest) + later, all)
  {
    assert trace + ((([x] + next) + rest) + later) == (trace + [x]) + ((next + rest) + later);
  }

  // ----- Which accesses a phase makes ---------------------------------------------

  /** The distance of `x` from the last block start of the phase before it. */
  function Within(x: nat, phase: nat, jump: nat): nat
    requires phase <= x && jump > 0
  {
    (x - phase) % jump
  }

  /** Whether the phase accesses offset `x`. */
  predicate Hit(size: nat, stride: nat, block: nat, phase: nat, x: nat)
    requires block > 0
  {
    && phase <= x && x + LANE <= size
    && Within(x, phase, stride + block) < block && Within(x, phase, stride + block) % LANE == 0
  }

  /** Whether the accesses of a block, from position `b` on, include `x`. */
  predicate InBlock(size: nat, block: nat, offset: nat, b: nat, x: nat) {
    offset + b <= x < offset + block && (x - offset - b) % LANE == 0 && x + LANE <= size
  }

  lemma CountOne(y: nat, x: nat)
    ensures Count([y], x) == (if x == y then 1 else 0) && Count([], x) == 0
  {
  }

  lemma InBlockStep(size: nat, block: nat, offset: nat, b: nat, x: nat)
    requires b < block
    ensures InBlock(size, block, offset, b, x)
            <==> (x == offset + b && x + LANE <= size) || InBlock(size, block, offset, b + LANE, x)
    ensures !InBlock(size, block, offset, b + LANE, offset + b)
  {
  }

  lemma {:induction false} BlockCount(size: nat, block: nat, offset: nat, b: nat, x: nat)
    ensures Count(BlockTrace(size, block, offset, b), x) == if InBlock(size, block, offset, b, x) then 1 else 0
    decreases block - b
  {
    CountOne(0, x);
    hide Count;
    if b < block {
      hide InBlock;
      BlockCount(size, block, offset, b + LANE, x);
      CountSum(if offset + b + LANE <= size then [offset + b] else [], BlockTrace(size, block, offset, b + LANE), x);
      CountOne(offset + b, x);
      InBlockStep(size, block, offset, b, x);
    }
  }

  lemma WithinFirst(x: nat, phase: nat, jump: nat)
    requires phase <= x < phase + jump
    ensures Within(x, phase, jump) == x - phase
  {
    DivModUnique(x - phase, jump, 0, x - phase);
  }

  lemma WithinNext(x: nat, phase: nat, jump: nat)
    requires phase + jump <= x && jump > 0
    ensures Within(x, phase, jump) == Within(x, phase + jump, jump)
  {
    var n := x - phase - jump;
    PartsOf(n, jump);
    AtNext(n / jump, jump);
    CoordinatesIff(n + jump, jump, n / jump + 1, n % jump);
    hide At;
  }

  /** A hit is in the block at `offset`, or a hit of the rest of the phase. */
  lemma HitStep(size: nat, stride: nat, block: nat, offset: nat, x: nat)
    requires block > 0
    ensures Hit(size, stride, block, offset, x)
            <==> InBlock(size, block, offset, 0, x) || Hit(size, stride, block, offset + (stride + block), x)
    ensures !(InBlock(size, block, offset, 0, x) && Hit(size, stride, block, offset + (stride + block), x))
  {
    var jump := stride + block;
    if offset <= x < offset + jump { WithinFirst(x, offset, jump); }
    if offset + jump <= x { WithinNext(x, offset, jump); }
    hide Within;
  }

  lemma NoHitBeyond(size: nat, stride: nat, block: nat, offset: nat, x: nat)
    requires block > 0 && offset >= size
    ensures !Hit(size, stride, block, offset, x)
  {
    hide Within;
  }

  /** A phase accesses an offset at most once, and exactly the ones it hits. */
  lemma {:induction false} PhaseCount(size: nat, stride: nat, block: nat, offset: nat, x: nat)
    requires block > 0
    ensures Count(PhaseTrace(size, stride, block, offset), x) == if Hit(size, stride, block, offset, x) then 1 else 0
    decreases size - offset
  {
    hide Hit;
    hide InBlock;
    hide Count;
    if offset < size {
      PhaseCount(size, stride, block, offset + (stride + block), x);
      BlockCount(size, block, offset, 0, x);
      CountSum(BlockTrace(size, block, offset, 0), PhaseTrace(size, stride, block, offset + (stride + block)), x);
      HitStep(size, stride, block, offset, x);
    } else {
      NoHitBeyond(size, stride, block, offset, x);
      CountOne(0, x);
    }
  }

  /** How many phases, from `phase` on, hit `x`. */
  function Hits(size: nat, stride: nat, block: nat, phase: nat, x: nat): nat
    requires block > 0
    decreases stride + block - phase
  {
    if phase >= stride + block then 0 else
      (if Hit(size, stride, block, phase, x) then 1 else 0) + Hits(size, stride, block, phase + block, x)
  }

  lemma {:induction false} TraceCount(size: nat, stride: nat, block: nat, phase: nat, x: nat)
    requires block > 0
    ensures Count(Trace(size, stride, block, phase), x) == Hits(size, stride, block, phase, x)
    decreases stride + block - phase
  {
    hide Hit;
    hide Count;
    CountOne(0, x);
    if phase < stride + block {
      PhaseCount(size, stride, block, phase, x);
      TraceCount(size, stride, block, phase + block, x);
      CountSum(PhaseTrace(size, stride, block, phase), Trace(size, stride, block, phase + block), x);
    }
  }

  // ----- Counting the phases that hit ---------------------------------------------

  /** If phase number `k` hits, it counts. */
  lemma {:induction false} HitCounts(size: nat, stride: nat, block: nat, m: nat, k: nat, x: nat)
    requires block > 0 && m <= k && At(k, block) < stride + block
    requires Hit(size, stride, block, At(k, block), x)
    ensures Hits(size, stride, block, At(m, block), x) >= 1
    decreases k - m
  {
    hide Hit;
    hide At;
    AtBefore(m, k, block);
    AtNext(m, block);
    if m < k { HitCounts(size, stride, block, m + 1, k, x); }
  }

  /** If phases number `k` and `l` hit, both count. */
  lemma {:induction false} TwoHitsCount(size: nat, stride: nat, block: nat, m: nat, k: nat, l: nat, x: nat)
    requires block > 0 && m <= k < l && At(l, block) < stride + block
    requires Hit(size, stride, block, At(k, block), x) && Hit(size, stride, block, At(l, block), x)
    ensures Hits(size, stride, block, At(m, block), x) >= 2
    decreases k - m
  {
    hide Hit;
    hide At;
    AtBefore(m, k, block);
    AtBefore(k, l, block);
    AtNext(m, block);
    if m < k {
      TwoHitsCount(size, stride, block, m + 1, k, l, x);
    } else {
      HitCounts(size, stride, block, m + 1, l, x);
    }
  }

  /** If only phase number `k` hits, nothing else counts. */
  lemma {:induction false} OneHitCounts(size: nat, stride: nat, block: nat, m: nat, k: nat, x: nat)
    requires block > 0
    requires forall j: nat :: At(j, block) < stride + block && Hit(size, stride, block, At(j, block), x) ==> j == k
    ensures Hits(size, stride, block, At(m, block), x) <= if m <= k then 1 else 0
    decreases stride + block - At(m, block)
  {
    hide Hit;
    if At(m, block) < stride + block {
      AtNext(m, block);
      hide At;
      OneHitCounts(size, stride, block, m + 1, k, x);
    }
  }

  // ----- Where an offset is hit ---------------------------------------------------

  /** The position of `x` in its stretch of `jump` bytes. */
  function Pos(x: nat, stride: nat, block: nat): (y: nat)
    requires block > 0
  {
    Within(x, 0, stride + block)
  }

  /** The phase whose blocks contain `x`. */
  function PhaseOf(x: nat, stride: nat, block: nat): nat
    requires block > 0
  {
    Pos(x, stride, block) / block
  }

  lemma PhaseOfIs(x: nat, stride: nat, block: nat)
    requires block > 0
    ensures var y, k := Pos(x, stride, block), PhaseOf(x, stride, block);
            && At(k, block) <= y < At(k, block) + block && y <= x && y < stride + block
  {
    hide At;
    PartsOf(x, stride + block);
    PartsOf(Pos(x, stride, block), block);
    CoordinatesSmall(x, stride + block);
  }

  lemma WithinFrom(x: nat, phase: nat, stride: nat, block: nat)
    requires block > 0 && phase <= x && phase < stride + block
    ensures var y := Pos(x, stride, block);
            Within(x, phase, stride + block) == if y >= phase then y - phase else y + (stride + block) - phase
  {
    var jump := stride + block;
    var q, y := x / jump, x % jump;
    PartsOf(x, jump);
    AtNext(q, jump);
    if y >= phase {
      CoordinatesIff(x - phase, jump, q, y - phase);
    } else {
      AtNext(if q > 0 then q - 1 else 0, jump);
      CoordinatesIff(x - phase, jump, q - 1, y + jump - phase);
    }
    hide At;
  }

  lemma AtAligned(k: nat, block: nat)
    requires block % LANE == 0
    ensures At(k, block) % LANE == 0
  {
    Assoc(k, block / LANE, LANE);
    assert At(k, block) == k * (block / LANE) * LANE;
    CoordinatesIff(At(k, block), LANE, k * (block / LANE), 0);
  }

  lemma SumAligned(a: nat, b: nat)
    requires a % LANE == 0
    ensures (a + b) % LANE == b % LANE
  {
  }

  lemma WithinAligned(x: nat, phase: nat, jump: nat)
    requires phase <= x && jump > 0 && jump % LANE == 0 && phase % LANE == 0
    ensures Within(x, phase, jump) % LANE == x % LANE
  {
    var n := x - phase;
    var q, r := n / jump, n % jump;
    PartsOf(n, jump);
    AtAligned(q, jump);
    SumAligned(At(q, jump), r);
    SumAligned(phase, n);
    hide At;
  }

  lemma PosAligned(x: nat, stride: nat, block: nat)
    requires block > 0 && stride % LANE == 0 && block % LANE == 0
    ensures Pos(x, stride, block) % LANE == x % LANE
  {
    WithinAligned(x, 0, stride + block);
    hide Within;
  }

  // ----- Coverage -----------------------------------------------------------------

  lemma CountPositive(trace: seq<nat>, x: nat)
    ensures Count(trace, x) >= 1 <==> x in trace
  {
  }

  /** An offset whose distance from its block start is a multiple of 32 is accessed. */
  lemma HitInPhase(size: nat, stride: nat, block: nat, x: nat)
    requires block > 0 && x + LANE <= size
    requires (Pos(x, stride, block) - At(PhaseOf(x, stride, block), block)) % LANE == 0
    ensures Hit(size, stride, block, At(PhaseOf(x, stride, block), block), x)
    ensures Hits(size, stride, block, 0, x) >= 1
  {
    hide At;
    hide Pos;
    hide PhaseOf;
    hide Within;
    var k := PhaseOf(x, stride, block);
    PhaseOfIs(x, stride, block);
    WithinFrom(x, At(k, block), stride, block);
    AtNext(0, block);
    HitCounts(size, stride, block, 0, k, x);
  }

  /** For any block size and stride, every byte with at least 32 bytes of the region
      from it on lies in some access. */
  lemma EveryByteCovered(size: nat, stride: nat, block: nat, x: nat)
    requires block > 0 && x + LANE <= size
    ensures exists t :: t in Trace(size, stride, block, 0) && t <= x < t + LANE
  {
    hide *;
    var k, y := PhaseOf(x, stride, block), Pos(x, stride, block);
    PhaseOfIs(x, stride, block);
    var d := StepBack(y, At(k, block));
    PosBack(x, stride, block, d);
    HitInPhase(size, stride, block, x - d);
    TraceCount(size, stride, block, 0, x - d);
    CountPositive(Trace(size, stride, block, 0), x - d);
  }

  lemma StepBack(y: nat, start: nat) returns (d: nat)
    requires start <= y
    ensures d < LANE && start + d <= y && (y - d - start) % LANE == 0
  {
    d := (y - start) % LANE;
  }

  /** Stepping back inside a block. */
  lemma PosBack(x: nat, stride: nat, block: nat, d: nat)
    requires block > 0 && At(PhaseOf(x, stride, block), block) + d <= Pos(x, stride, block)
    ensures d <= x && Pos(x - d, stride, block) == Pos(x, stride, block) - d
    ensures PhaseOf(x - d, stride, block) == PhaseOf(x, stride, block)
  {
    var jump := stride + block;
    var y, k := Pos(x, stride, block), PhaseOf(x, stride, block);
    PhaseOfIs(x, stride, block);
    PartsOf(x, jump);
    CoordinatesIff(x - d, jump, x / jump, y - d);
    CoordinatesIff(y - d, block, k, y - d - At(k, block));
    hide At;
  }

  /** Every access is inside the region. */
  lemma AccessInside(size: nat, stride: nat, block: nat, t: nat)
    requires block > 0 && t in Trace(size, stride, block, 0)
    ensures t + LANE <= size
  {
    CountPositive(Trace(size, stride, block, 0), t);
    TraceCount(size, stride, block, 0, t);
    if t + LANE > size {
      NoPhaseHits(size, stride, block, 0, t);
      AtNext(0, block);
    }
    hide At;
    hide Within;
    hide Trace;
    hide Hits;
  }

  // ----- Covering the whole region --------------------------------------------------

  ghost predicate Covered(size: nat, stride: nat, block: nat, x: nat)
    requires block > 0
  {
    exists t :: t in Trace(size, stride, block, 0) && t <= x < t + LANE
  }

  /** Every byte of the region lies in some access. */
  ghost predicate AllCovered(size: nat, stride: nat, block: nat)
    requires block > 0
  {
    forall x: nat :: x < size ==> Covered(size, stride, block, x)
  }

  /** When an access starts at `x`: 32 divides its distance from the start of its block,
      or the last phase, which reaches past the end of the stretch when the stride is no
      multiple of the block size, has come by in the stretch before. */
  predicate Accessed(x: nat, stride: nat, block: nat)
    requires block > 0
  {
    var y, r := x % (stride + block), stride % block;
    || y % block % LANE == 0
    || (r != 0 && x >= stride + block && y + r < block && (y + r) % LANE == 0)
  }

  /** The number of the last phase, if the stride is no multiple of the block size. */
  function LastPhase(stride: nat, block: nat): nat
    requires block > 0
  {
    stride / block + 1
  }

  lemma LastPhaseIs(stride: nat, block: nat)
    requires block > 0
    ensures At(LastPhase(stride, block), block) == stride + block - stride % block
    ensures stride % block < block && (stride % block != 0 ==> stride > 0)
  {
    hide At;
    PartsOf(stride, block);
    AtNext(stride / block, block);
  }

  /** What phase number `m` hits: its own blocks, or, if it is the last one, what lies
      past the end of the stretch. */
  lemma HitInPhaseIff(size: nat, stride: nat, block: nat, m: nat, x: nat)
    requires block > 0 && At(m, block) < stride + block && x + LANE <= size
    ensures var y, r := Pos(x, stride, block), stride % block;
            Hit(size, stride, block, At(m, block), x)
            <==> (m == PhaseOf(x, stride, block) && y % block % LANE == 0)
                 || (m == LastPhase(stride, block) && r != 0
                     && x >= stride + block && y + r < block && (y + r) % LANE == 0)
  {
    var l, k, y := LastPhase(stride, block), PhaseOf(x, stride, block), Pos(x, stride, block);
    PartsOf(y, block);
    hide At;
    hide Within;
    hide Pos;
    hide LastPhase;
    PhaseOfIs(x, stride, block);
    hide PhaseOf;
    LastPhaseIs(stride, block);
    AtBefore(m, k, block);
    AtBefore(k, m, block);
    AtBefore(m, l, block);
    AtBefore(l, m, block);
    if At(m, block) <= x { WithinFrom(x, At(m, block), stride, block); }
    if x < stride + block { PosFirst(x, stride, block); }
  }

  /** Exactly which accesses the sweep makes. */
  lemma AccessedIff(size: nat, stride: nat, block: nat, x: nat)
    requires block > 0 && x + LANE <= size
    ensures x in Trace(size, stride, block, 0) <==> Accessed(x, stride, block)
  {
    hide At;
    hide Hit;
    hide Hits;
    hide Trace;
    hide Count;
    var k, l := PhaseOf(x, stride, block), LastPhase(stride, block);
    TraceCount(size, stride, block, 0, x);
    CountPositive(Trace(size, stride, block, 0), x);
    AtNext(0, block);
    if Accessed(x, stride, block) {
      PhaseOfIs(x, stride, block);
      LastPhaseIs(stride, block);
      var m := if Pos(x, stride, block) % block % LANE == 0 then k else l;
      HitInPhaseIff(size, stride, block, m, x);
      HitCounts(size, stride, block, 0, m, x);
    } else {
      forall m: nat | At(m, block) < stride + block ensures !Hit(size, stride, block, At(m, block), x) {
        HitInPhaseIff(size, stride, block, m, x);
      }
      NoPhaseHits(size, stride, block, 0, x);
    }
  }

  /** The region is covered exactly when its last 32 bytes are one access. */
  lemma LastAccessDecides(size: nat, stride: nat, block: nat)
    requires block > 0 && size > 0
    ensures AllCovered(size, stride, block) <==> size >= LANE && size - LANE in Trace(size, stride, block, 0)
  {
    hide Trace;
    if AllCovered(size, stride, block) {
      assert Covered(size, stride, block, size - 1);
      var t :| t in Trace(size, stride, block, 0) && t <= size - 1 < t + LANE;
      AccessInside(size, stride, block, t);
    }
    if size >= LANE && size - LANE in Trace(size, stride, block, 0) {
      forall x: nat | x < size ensures Covered(size, stride, block, x) {
        if x + LANE <= size { EveryByteCovered(size, stride, block, x); }
      }
    }
  }

  /** The sweep covers all memory if and only if the region is empty or an access starts
      32 bytes before its end. */
  lemma AllCoveredIff(size: nat, stride: nat, block: nat)
    requires block > 0
    ensures AllCovered(size, stride, block) <==> size == 0 || (size >= LANE && Accessed(size - LANE, stride, block))
  {
    hide Trace;
    hide Accessed;
    if size > 0 { LastAccessDecides(size, stride, block); }
    if size >= LANE { AccessedIff(size, stride, block, size - LANE); }
    hide Covered;
  }

  /** With block size and stride of 100 the last byte of a region of one MiB is never
      accessed. */
  lemma LastByteMissed()
    ensures !AllCovered(0x10_0000, 100, 100)
  {
    AllCoveredIff(0x10_0000, 100, 100);
  }

  /** When 32 divides block size, stride and region, all of it is covered. */
  lemma AlignedIsCovered(size: nat, stride: nat, block: nat)
    requires block > 0 && block % LANE == 0 && stride % LANE == 0 && size % LANE == 0
    ensures AllCovered(size, stride, block)
  {
    hide Trace;
    if size > 0 {
      SubAligned(size, LANE);
      LastAccessDecides(size, stride, block);
      LanesCovered(size, stride, block, size - LANE);
      CountPositive(Trace(size, stride, block, 0), size - LANE);
    }
  }

  // ----- Whole lanes --------------------------------------------------------------

  predicate Lane(size: nat, x: nat) {
    x % LANE == 0 && x + LANE <= size
  }

  /** When 32 divides block size and stride, every whole lane is accessed at least
      once, and nothing else is. */
  lemma LanesCovered(size: nat, stride: nat, block: nat, x: nat)
    requires block > 0 && stride % LANE == 0 && block % LANE == 0
    ensures Count(Trace(size, stride, block, 0), x) >= 1 <==> Lane(size, x)
  {
    TraceCount(size, stride, block, 0, x);
    var k := PhaseOf(x, stride, block);
    PosAligned(x, stride, block);
    AtAligned(k, block);
    if Lane(size, x) {
      PhaseOfIs(x, stride, block);
      SubAligned(Pos(x, stride, block), At(k, block));
      HitInPhase(size, stride, block, x);
    } else {
      forall p: nat ensures At(p, block) < stride + block ==> !Hit(size, stride, block, At(p, block), x) {
        if At(p, block) < stride + block { HitIsLane(size, stride, block, p, x); }
      }
      NoPhaseHits(size, stride, block, 0, x);
      AtNext(0, block);
    }
    hide At;
    hide Hit;
    hide Pos;
    hide PhaseOf;
    hide Count;
  }

  lemma SubAligned(a: nat, b: nat)
    requires a >= b && b % LANE == 0
    ensures (a - b) % LANE == a % LANE
  {
  }

  lemma HitIsLane(size: nat, stride: nat, block: nat, m: nat, x: nat)
    requires block > 0 && stride % LANE == 0 && block % LANE == 0 && At(m, block) < stride + block
    ensures Hit(size, stride, block, At(m, block), x) ==> Lane(size, x)
  {
    hide At;
    hide Within;
    if Hit(size, stride, block, At(m, block), x) {
      AtAligned(m, block);
      SumAligned(stride, block);
      WithinAligned(x, At(m, block), stride + block);
    }
  }

  lemma {:induction false} NoPhaseHits(size: nat, stride: nat, block: nat, m: nat, x: nat)
    requires block > 0
    requires forall j: nat :: At(j, block) < stride + block ==> !Hit(size, stride, block, At(j, block), x)
    ensures Hits(size, stride, block, At(m, block), x) == 0
    decreases stride + block - At(m, block)
  {
    hide Hit;
    if At(m, block) < stride + block {
      AtNext(m, block);
      hide At;
      NoPhaseHits(size, stride, block, m + 1, x);
    }
  }

  // ----- Exactly once -------------------------------------------------------------

  /** The phase that hits is unique when the stride is a multiple of the block size, or
      the region does not reach past the first stretch. */
  lemma HitOnce(size: nat, stride: nat, block: nat, m: nat, x: nat)
    requires block > 0 && At(m, block) < stride + block
    requires stride % block == 0 || size < stride + block + LANE
    requires Hit(size, stride, block, At(m, block), x)
    ensures m == PhaseOf(x, stride, block)
  {
    hide At;
    hide Within;
    hide Pos;
    hide PhaseOf;
    var k, y := PhaseOf(x, stride, block), Pos(x, stride, block);
    PhaseOfIs(x, stride, block);
    WithinFrom(x, At(m, block), stride, block);
    AtBefore(m, k, block);
    AtBefore(k, m, block);
    if stride % block == 0 {
      PhaseFits(stride, block, m);
    } else {
      PosFirst(x, stride, block);
    }
  }

  lemma PosFirst(x: nat, stride: nat, block: nat)
    requires block > 0 && x < stride + block
    ensures Pos(x, stride, block) == x
  {
    WithinFirst(x, 0, stride + block);
  }

  lemma PhaseFits(stride: nat, block: nat, m: nat)
    requires block > 0 && stride % block == 0 && At(m, block) < stride + block
    ensures At(m, block) + block <= stride + block
  {
    hide At;
    PartsOf(stride, block);
    AtNext(stride / block, block);
    if m < stride / block + 1 {
      AtBefore(m, stride / block + 1, block);
    } else {
      AtBefore(stride / block + 1, m, block);
    }
  }

  /** Without that, the lane that starts the second stretch is accessed twice. */
  lemma SecondStretchTwice(size: nat, stride: nat, block: nat)
    requires block > 0 && stride % LANE == 0 && block % LANE == 0
    requires stride % block != 0 && stride + block + LANE <= size
    ensures Count(Trace(size, stride, block, 0), stride + block) >= 2
  {
    var jump := stride + block;
    var l := stride / block + 1;
    PartsOf(stride, block);
    AtNext(stride / block, block);
    AtBefore(0, l, block);
    AtNext(0, block);
    AtAligned(l, block);
    HitsNext(size, stride, block, 0);
    HitsNext(size, stride, block, l);
    TwoHitsCount(size, stride, block, 0, 0, l, jump);
    TraceCount(size, stride, block, 0, jump);
    hide At;
    hide Hit;
    hide Hits;
    hide Trace;
    hide Count;
  }

  /** A phase that reaches the end of the stretch hits the start of the next one. */
  lemma HitsNext(size: nat, stride: nat, block: nat, m: nat)
    requires block > 0 && stride % LANE == 0 && block % LANE == 0 && stride + block + LANE <= size
    requires m == 0 || stride < At(m, block) < stride + block
    ensures Hit(size, stride, block, At(m, block), stride + block)
  {
    hide At;
    hide Within;
    var jump := stride + block;
    AtNext(0, block);
    AtAligned(m, block);
    SumAligned(stride, block);
    SubAligned(jump, At(m, block));
    if m == 0 { FullTurn(jump); } else { WithinFirst(jump, At(m, block), jump); }
  }

  lemma FullTurn(jump: nat)
    requires jump > 0
    ensures Within(jump, 0, jump) == 0
  {
    hide At;
    CoordinatesIff(jump, jump, 1, 0);
    AtNext(0, jump);
  }

  /** Every whole lane is accessed exactly once. */
  ghost predicate ExactlyOnce(size: nat, stride: nat, block: nat)
    requires block > 0
  {
    forall x: nat :: Count(Trace(size, stride, block, 0), x) == if Lane(size, x) then 1 else 0
  }

  lemma CountedOnce(size: nat, stride: nat, block: nat, x: nat)
    requires block > 0 && stride % LANE == 0 && block % LANE == 0
    requires stride % block == 0 || size < stride + block + LANE
    ensures Count(Trace(size, stride, block, 0), x) == if Lane(size, x) then 1 else 0
  {
    hide Hit;
    hide Hits;
    hide Trace;
    hide Count;
    hide At;
    hide PhaseOf;
    LanesCovered(size, stride, block, x);
    TraceCount(size, stride, block, 0, x);
    var k := PhaseOf(x, stride, block);
    forall j: nat | At(j, block) < stride + block && Hit(size, stride, block, At(j, block), x) ensures j == k {
      HitOnce(size, stride, block, j, x);
    }
    OneHitCounts(size, stride, block, 0, k, x);
    AtNext(0, block);
  }

  /** When 32 divides block size and stride, the sweep accesses every whole lane exactly
      once if and only if the stride is a multiple of the block size or the region ends
      before the first whole lane of the second stretch. */
  lemma ExactlyOnceIff(size: nat, stride: nat, block: nat)
    requires block > 0 && stride % LANE == 0 && block % LANE == 0
    ensures ExactlyOnce(size, stride, block) <==> stride % block == 0 || size < stride + block + LANE
  {
    hide Trace;
    hide Count;
    if stride % block == 0 || size < stride + block + LANE {
      forall x: nat ensures Count(Trace(size, stride, block, 0), x) == if Lane(size, x) then 1 else 0 {
        CountedOnce(size, stride, block, x);
      }
    } else {
      SecondStretchTwice(size, stride, block);
    }
  }

  // ----- The byte count -----------------------------------------------------------

  function Lanes(n: nat): (r: seq<nat>)
    ensures |r| == n
  {
    if n == 0 then [] else Lanes(n - 1) + [LANE * (n - 1)]
  }

  lemma LastLane(n: nat, x: nat)
    requires n > 0
    ensures x % LANE == 0 && x < LANE * n <==> x == LANE * (n - 1) || (x % LANE == 0 && x < LANE * (n - 1))
  {
  }

  lemma {:induction false} LanesCount(n: nat, x: nat)
    ensures Count(Lanes(n), x) == if x % LANE == 0 && x < LANE * n then 1 else 0
  {
    CountOne(0, x);
    hide Count;
    if n > 0 {
      LanesCount(n - 1, x);
      CountSum(Lanes(n - 1), [LANE * (n - 1)], x);
      CountOne(LANE * (n - 1), x);
      LastLane(n, x);
    }
  }

  lemma LaneBelow(size: nat, x: nat)
    ensures Lane(size, x) <==> x % LANE == 0 && x < LANE * (size / LANE)
  {
  }

  lemma SameCounts(a: seq<nat>, b: seq<nat>)
    requires forall x: nat :: Count(a, x) == Count(b, x)
    ensures |a| == |b|
  {
    forall x: nat ensures multiset(a)[x] == multiset(b)[x] { assert Count(a, x) == Count(b, x); }
    assert multiset(a) == multiset(b);
    assert |multiset(a)| == |a| && |multiset(b)| == |b|;
  }

  /** A sweep that accesses every lane exactly once reports the bytes of all whole lanes. */
  lemma BytesReported(size: nat, stride: nat, block: nat)
    requires block > 0 && ExactlyOnce(size, stride, block)
    ensures LANE * |Trace(size, stride, block, 0)| == LANE * (size / LANE)
  {
    hide Trace;
    hide Count;
    hide Lane;
    var trace, n := Trace(size, stride, block, 0), size / LANE;
    forall x: nat ensures Count(trace, x) == Count(Lanes(n), x) {
      LanesCount(n, x);
      LaneBelow(size, x);
    }
    SameCounts(trace, Lanes(n));
  }
}
