/**
 `firstTouchData`: the threads share out the region and write one byte every 4 KiB.
 The region starts at offset 0.
 */
module PreTouch {
  import opened Word64
  import opened BlockBytes

  const PAGE: nat := 4096

  // ----- The thread ranges --------------------------------------------------------

  function Start(size: nat, threads: nat, t: nat): nat
    requires threads > 0
  {
    At(t, size / threads)
  }

  /** The last thread takes the remainder. */
  function End(size: nat, threads: nat, t: nat): nat
    requires threads > 0
  {
    if t == threads - 1 then size else At(t, size / threads) + size / threads
  }

  predicate Owns(size: nat, threads: nat, t: nat, x: nat)
    requires threads > 0
  {
    t < threads && Start(size, threads, t) <= x < End(size, threads, t)
  }

  /** Whether thread `t` writes the byte at `x`. */
  predicate Writes(size: nat, threads: nat, t: nat, x: nat)
    requires threads > 0
  {
    Owns(size, threads, t, x) && (x - Start(size, threads, t)) % PAGE == 0
  }

  ghost predicate Written(size: nat, threads: nat, x: nat)
    requires threads > 0
  {
    exists t: nat :: Writes(size, threads, t, x)
  }

  /** The ranges follow one another, from 0 to `size`. */
  lemma RangesChain(size: nat, threads: nat, t: nat)
    requires t < threads
    ensures Start(size, threads, 0) == 0
    ensures Start(size, threads, t) <= End(size, threads, t) <= size
    ensures t + 1 < threads ==> End(size, threads, t) == Start(size, threads, t + 1)
  {
    var per := size / threads;
    AtNext(t, per);
    PartsOf(size, threads);
    MulMono(t + 1, threads, per);
    assert At(t + 1, per) <= At(threads, per) <= size;
  }

  lemma StartMono(size: nat, threads: nat, t: nat, u: nat)
    requires threads > 0 && t <= u
    ensures Start(size, threads, t) <= Start(size, threads, u)
  {
    MulMono(t, u, size / threads);
  }

  /** Every thread but the last has the quotient, the last one the remainder as well. */
  lemma RangeSizes(size: nat, threads: nat, t: nat)
    requires t < threads
    ensures End(size, threads, t) - Start(size, threads, t)
            == size / threads + if t == threads - 1 then size % threads else 0
  {
    PartsOf(size, threads);
    if t == threads - 1 { LastRange(size, threads, size / threads); }
  }

  lemma LastRange(size: nat, threads: nat, per: nat)
    requires threads > 0
    ensures At(per, threads) == At(threads - 1, per) + per
  {
    AtNext(threads - 1, per);
  }

  /** No byte belongs to two threads. */
  lemma OwnersDisjoint(size: nat, threads: nat, t: nat, u: nat, x: nat)
    requires threads > 0 && Owns(size, threads, t, x) && Owns(size, threads, u, x)
    ensures t == u
  {
    hide Start;
    hide End;
    RangesChain(size, threads, t);
    RangesChain(size, threads, u);
    if t < u { StartMono(size, threads, t + 1, u); }
    if u < t { StartMono(size, threads, u + 1, t); }
  }

  lemma {:induction false} OwnerFrom(size: nat, threads: nat, t: nat, x: nat) returns (u: nat)
    requires t < threads && Start(size, threads, t) <= x < size
    ensures Owns(size, threads, u, x)
    decreases threads - t
  {
    RangesChain(size, threads, t);
    if x < End(size, threads, t) {
      u := t;
    } else {
      u := OwnerFrom(size, threads, t + 1, x);
    }
  }

  /** The ranges are disjoint and together make up exactly the region. */
  lemma RangesPartition(size: nat, threads: nat, x: nat)
    requires threads > 0
    ensures (exists t: nat :: Owns(size, threads, t, x)) <==> x < size
    ensures forall t: nat, u: nat :: Owns(size, threads, t, x) && Owns(size, threads, u, x) ==> t == u
  {
    RangesChain(size, threads, 0);
    if x < size { var t := OwnerFrom(size, threads, 0, x); }
    forall t: nat, u: nat | Owns(size, threads, t, x) && Owns(size, threads, u, x) ensures t == u && x < size {
      RangesChain(size, threads, t);
      OwnersDisjoint(size, threads, t, u, x);
    }
  }

  // ----- Touching -----------------------------------------------------------------

  /** The byte that thread `t` writes. */
  function Marker(t: nat): byte {
    XorByte(0xa5, t % 256)
  }

  /** The marker is meant to be non-zero; it is, except for threads 165, 421 and so on. */
  lemma MarkerNonZero(t: nat)
    ensures Marker(t) != 0 <==> t % 256 != 165
  {
    XorCancel(t % 256, 0xa5, 0xa5);
    assert XorByte(0xa5, 0xa5) == 0;
  }

  /** Bit by bit it is the exclusive or of 0xa5 and the low byte of the thread number. */
  lemma MarkerBits(t: nat, k: nat)
    requires k < 8
    ensures Bit(Marker(t), k) == (if Bit(0xa5, k) == Bit(t, k) then 0 else 1)
  {
    TwoByte();
    XorByteBit(0xa5, t % 256, k);
    LowBits(t, k, 8);
    hide Bit;
    hide XorByte;
  }

  /** What the threads together leave: every step of every thread holds its marker, and
      nothing else has changed. */
  ghost predicate Touched(before: seq<byte>, after: seq<byte>, size: nat, threads: nat)
    requires threads > 0
  {
    && |after| == |before|
    && (forall t: nat, x: nat :: Writes(size, threads, t, x) && x < |after| ==> after[x] == Marker(t))
    && (forall x :: 0 <= x < |after| && !Written(size, threads, x) ==> after[x] == before[x])
  }

  /** One thread after the other. */
  method FirstTouch(data: array<byte>, size: nat, numThreads: int)
    requires size <= data.Length
    modifies data
    ensures size == 0 || numThreads <= 0 ==> data[..] == old(data[..])
    ensures size > 0 && numThreads > 0 ==> Touched(old(data[..]), data[..], size, numThreads)
  {
    if size == 0 || numThreads <= 0 { return; }
    hide Start;
    hide End;
    hide Marker;
    hide Owns;
    var t := 0;
    while t < numThreads
      invariant 0 <= t <= numThreads
      invariant forall u: nat, x: nat ::
                  u < t && Writes(size, numThreads, u, x) && x < data.Length ==> data[x] == Marker(u)
      invariant forall x :: 0 <= x < data.Length && !Written(size, numThreads, x) ==> data[x] == old(data[x])
    {
      ghost var before := data[..];
      TouchRange(data, size, numThreads, t);
      forall u: nat, x: nat | u < t && Writes(size, numThreads, u, x) && x < data.Length ensures data[x] == Marker(u) {
        if Writes(size, numThreads, t, x) { OwnersDisjoint(size, numThreads, u, t, x); }
        assert data[x] == before[x];
      }
      t := t + 1;
    }
    forall u: nat, x: nat | Writes(size, numThreads, u, x) && x < data.Length ensures data[x] == Marker(u) {
      OwnerBelow(size, numThreads, u, x);
    }
  }

  lemma OwnerBelow(size: nat, threads: nat, t: nat, x: nat)
    requires threads > 0 && Owns(size, threads, t, x)
    ensures t < threads
  {
  }

  /** What one thread does. */
  method TouchRange(data: array<byte>, size: nat, threads: nat, t: nat)
    requires size <= data.Length && t < threads
    modifies data
    ensures forall x: nat :: x < data.Length && Writes(size, threads, t, x) ==> data[x] == Marker(t)
    ensures forall x: nat :: x < data.Length && !Writes(size, threads, t, x) ==> data[x] == old(data[x])
  {
    hide Start;
    hide End;
    hide Marker;
    hide Writes;
    hide WrittenBelow;
    RangesChain(size, threads, t);
    var base, perThread := Range(size, threads, t);
    var off := 0;
    NothingBefore(size, threads, t);
    while off < perThread
      invariant off % PAGE == 0
      invariant forall x: nat :: x < data.Length && WrittenBelow(size, threads, t, off, x) ==> data[x] == Marker(t)
      invariant forall x: nat :: x < data.Length && !WrittenBelow(size, threads, t, off, x) ==> data[x] == old(data[x])
      decreases perThread - off
    {
      OneMoreWrite(size, threads, t, off);
      data[base + off] := Marker(t);
      off := off + PAGE;
    }
    AllWritten(size, threads, t, off);
  }

  /** The start and the length of a thread's range. */
  method Range(size: nat, threads: nat, t: nat) returns (base: nat, perThread: nat)
    requires t < threads
    ensures base == Start(size, threads, t) && base + perThread == End(size, threads, t)
  {
    RangesChain(size, threads, t);
    perThread := size / threads;
    base := t * perThread;
    if t == threads - 1 {
      perThread := size - base;
    }
  }

  /** What thread `t` has written before its step `off`. */
  predicate WrittenBelow(size: nat, threads: nat, t: nat, off: nat, x: nat)
    requires threads > 0
  {
    Writes(size, threads, t, x) && x < Start(size, threads, t) + off
  }

  lemma NothingBefore(size: nat, threads: nat, t: nat)
    requires threads > 0
    ensures forall x: nat :: !WrittenBelow(size, threads, t, 0, x)
  {
    hide Start;
    hide End;
  }

  lemma OneMoreWrite(size: nat, threads: nat, t: nat, off: nat)
    requires t < threads && off % PAGE == 0 && Start(size, threads, t) + off < End(size, threads, t)
    ensures forall x: nat :: WrittenBelow(size, threads, t, off + PAGE, x)
                             <==> x == Start(size, threads, t) + off || WrittenBelow(size, threads, t, off, x)
  {
    hide Start;
    hide End;
    forall x: nat ensures WrittenBelow(size, threads, t, off + PAGE, x)
                          <==> x == Start(size, threads, t) + off || WrittenBelow(size, threads, t, off, x)
    {
      if x >= Start(size, threads, t) { NextStep(x - Start(size, threads, t), off); }
    }
  }

  lemma NextStep(d: nat, off: nat)
    requires off % PAGE == 0
    ensures d % PAGE == 0 && d < off + PAGE <==> d == off || (d % PAGE == 0 && d < off)
  {
  }

  lemma AllWritten(size: nat, threads: nat, t: nat, off: nat)
    requires threads > 0 && End(size, threads, t) <= Start(size, threads, t) + off
    ensures forall x: nat :: WrittenBelow(size, threads, t, off, x) <==> Writes(size, threads, t, x)
  {
    hide Start;
    hide End;
  }

  // ----- All threads at once ------------------------------------------------------

  /** The region and the step every thread is at. */
  datatype Touching = Touching(bytes: seq<byte>, offs: seq<nat>)

  /** Thread `t` writes one byte and moves on. */
  ghost predicate TouchStep(size: nat, threads: nat, s: Touching, s': Touching, t: nat) {
    && t < threads == |s.offs|
    && Start(size, threads, t) + s.offs[t] < End(size, threads, t) <= |s.bytes|
    && s' == Touching(s.bytes[Start(size, threads, t) + s.offs[t] := Marker(t)], s.offs[t := s.offs[t] + PAGE])
  }

  /** A run of all threads in which `sched` says whose turn it is. */
  ghost predicate TouchRun(size: nat, threads: nat, ex: seq<Touching>, sched: seq<nat>) {
    && |ex| == |sched| + 1
    && size <= |ex[0].bytes|
    && ex[0].offs == seq(threads, i => 0)
    && forall i :: 0 <= i < |sched| ==> TouchStep(size, threads, ex[i], ex[i + 1], sched[i])
  }

  /** What the threads have written so far holds their markers. */
  ghost predicate TouchInv(size: nat, threads: nat, before: seq<byte>, s: Touching)
    requires threads > 0
  {
    && |s.offs| == threads && |s.bytes| == |before|
    && (forall t :: 0 <= t < threads ==> s.offs[t] % PAGE == 0)
    && (forall t: nat, x: nat ::
          t < threads && x < |s.bytes| && WrittenBelow(size, threads, t, s.offs[t], x) ==> s.bytes[x] == Marker(t))
    && (forall x: nat :: x < |s.bytes| && !Written(size, threads, x) ==> s.bytes[x] == before[x])
  }

  lemma TouchStepKeepsInv(size: nat, threads: nat, before: seq<byte>, s: Touching, s': Touching, t: nat)
    requires threads > 0 && TouchInv(size, threads, before, s) && TouchStep(size, threads, s, s', t)
    ensures TouchInv(size, threads, before, s')
  {
    hide Start;
    hide End;
    hide Marker;
    var y := Start(size, threads, t) + s.offs[t];
    StepWrites(size, threads, t, s.offs[t]);
    hide Writes;
    OneMoreWrite(size, threads, t, s.offs[t]);
    assert Written(size, threads, y);
    forall u: nat, x: nat | u < threads && x < |s'.bytes| && WrittenBelow(size, threads, u, s'.offs[u], x)
      ensures s'.bytes[x] == Marker(u)
    {
      if x == y { WritersDisjoint(size, threads, u, t, x); }
    }
  }

  lemma StepWrites(size: nat, threads: nat, t: nat, off: nat)
    requires t < threads && off % PAGE == 0 && Start(size, threads, t) + off < End(size, threads, t)
    ensures Writes(size, threads, t, Start(size, threads, t) + off)
  {
    hide Start;
    hide End;
  }

  lemma WritersDisjoint(size: nat, threads: nat, t: nat, u: nat, x: nat)
    requires threads > 0 && Writes(size, threads, t, x) && Writes(size, threads, u, x)
    ensures t == u
  {
    OwnersDisjoint(size, threads, t, u, x);
  }

  lemma {:induction false} TouchRunInv(size: nat, threads: nat, ex: seq<Touching>, sched: seq<nat>, k: nat)
    requires threads > 0 && TouchRun(size, threads, ex, sched) && k < |ex|
    ensures TouchInv(size, threads, ex[0].bytes, ex[k])
  {
    if k == 0 {
      hide WrittenBelow;
      forall t: nat, x: nat | t < threads ensures !WrittenBelow(size, threads, t, 0, x) {
        NothingBefore(size, threads, t);
      }
    } else {
      hide TouchInv;
      TouchRunInv(size, threads, ex, sched, k - 1);
      assert TouchStep(size, threads, ex[k - 1], ex[k], sched[k - 1]);
      TouchStepKeepsInv(size, threads, ex[0].bytes, ex[k - 1], ex[k], sched[k - 1]);
    }
  }

  /** However the threads interleave, when all have finished the region is touched. */
  lemma AnyInterleaving(size: nat, threads: nat, ex: seq<Touching>, sched: seq<nat>, k: nat)
    requires threads > 0 && TouchRun(size, threads, ex, sched) && k < |ex|
    requires |ex[k].offs| == threads
    requires forall t :: 0 <= t < threads ==> End(size, threads, t) <= Start(size, threads, t) + ex[k].offs[t]
    ensures Touched(ex[0].bytes, ex[k].bytes, size, threads)
  {
    hide Start;
    hide End;
    hide Marker;
    hide Owns;
    TouchRunInv(size, threads, ex, sched, k);
    var s := ex[k];
    forall t: nat, x: nat | Writes(size, threads, t, x) && x < |s.bytes| ensures s.bytes[x] == Marker(t) {
      OwnerBelow(size, threads, t, x);
      AllWritten(size, threads, t, s.offs[t]);
    }
  }

  /** The outcome does not depend on the interleaving. */
  lemma TouchedUnique(before: seq<byte>, a: seq<byte>, b: seq<byte>, size: nat, threads: nat)
    requires threads > 0 && Touched(before, a, size, threads) && Touched(before, b, size, threads)
    ensures a == b
  {
    hide Writes;
    hide Marker;
    forall x | 0 <= x < |a| ensures a[x] == b[x] {
      if Written(size, threads, x) {
        var t: nat :| Writes(size, threads, t, x);
      }
    }
  }

  // ----- Every page ---------------------------------------------------------------

  lemma NextStartWritten(size: nat, threads: nat, t: nat)
    requires t + 1 < threads && size / threads > 0
    ensures Writes(size, threads, t + 1, Start(size, threads, t + 1))
  {
    RangesChain(size, threads, t + 1);
    PartsOf(size, threads);
    AtBefore(t + 1, threads, size / threads);
  }

  /** The next byte written at or after `x`, unless it lies beyond the thread's range. */
  lemma NextInRange(size: nat, threads: nat, t: nat, x: nat) returns (y: nat)
    requires threads > 0 && Owns(size, threads, t, x)
    ensures x <= y < x + PAGE
    ensures y < End(size, threads, t) ==> Writes(size, threads, t, y)
  {
    hide Start;
    hide End;
    var d := (x - Start(size, threads, t)) % PAGE;
    y := if d == 0 then x else x + PAGE - d;
  }

  /** Every 4 KiB window inside the region contains a written byte, wherever the thread
      boundaries fall. */
  lemma EveryWindowTouched(size: nat, threads: nat, x: nat)
    requires threads > 0 && x + PAGE <= size
    ensures exists y :: x <= y < x + PAGE && Written(size, threads, y)
  {
    hide Start;
    hide End;
    RangesChain(size, threads, 0);
    var t := OwnerFrom(size, threads, 0, x);
    var y := NextInRange(size, threads, t, x);
    if y < End(size, threads, t) {
      assert Writes(size, threads, t, y) && Written(size, threads, y);
    } else {
      NotLast(size, threads, t, x);
      RangesChain(size, threads, t);
      NextStartWritten(size, threads, t);
      assert Written(size, threads, End(size, threads, t));
    }
  }

  lemma NotLast(size: nat, threads: nat, t: nat, x: nat)
    requires threads > 0 && Owns(size, threads, t, x) && End(size, threads, t) < size
    ensures t + 1 < threads && size / threads > 0
  {
  }

  /** Whether some byte of page number `g` of a page-aligned region is written. */
  ghost predicate PageTouched(size: nat, threads: nat, g: nat)
    requires threads > 0
  {
    exists y :: g * PAGE <= y < (g + 1) * PAGE && Written(size, threads, y)
  }

  lemma LastStart(size: nat, threads: nat)
    requires threads > 0 && size > 0
    ensures Start(size, threads, threads - 1) < size == End(size, threads, threads - 1)
  {
    PartsOf(size, threads);
    AtNext(threads - 1, size / threads);
    assert At(threads - 1, size / threads) + size / threads <= At(size / threads, threads);
    AtNext(0, threads);
    if size / threads == 0 { AtNext(0, threads - 1); }
  }

  /** A byte of the last page that a thread writes. */
  lemma LastPageOwner(size: nat, threads: nat, t: nat, y: nat)
    requires threads > 0 && size > 0 && Writes(size, threads, t, y) && (size - 1) / PAGE * PAGE <= y
    ensures Start(size, threads, threads - 1) % PAGE <= (size - 1) % PAGE
  {
    hide Start;
    hide End;
    LastStart(size, threads);
    RangesChain(size, threads, t);
    var s := Start(size, threads, threads - 1);
    if t + 1 < threads {
      StartMono(size, threads, t + 1, threads - 1);
      SamePage(size, s);
    } else {
      SamePhase(s, y);
      SamePage(size, y);
    }
  }

  lemma SamePhase(s: nat, y: nat)
    requires s <= y
    ensures (y - s) % PAGE == 0 <==> y % PAGE == s % PAGE
  {
  }

  lemma SamePage(size: nat, y: nat)
    requires (size - 1) / PAGE * PAGE <= y < size
    ensures y % PAGE <= (size - 1) % PAGE
  {
  }

  lemma LastPageStep(size: nat, s: nat) returns (y: nat)
    requires s < size && s % PAGE <= (size - 1) % PAGE
    ensures s <= y < size && (size - 1) / PAGE * PAGE <= y && (y - s) % PAGE == 0
  {
    var p := (size - 1) / PAGE * PAGE;
    y := if s >= p then s else p + s % PAGE;
    if s < p { SamePhase(s, y); }
  }

  /** The last page is touched exactly when the last thread's stepping reaches it. */
  lemma LastPageIff(size: nat, threads: nat)
    requires threads > 0 && size > 0
    ensures PageTouched(size, threads, (size - 1) / PAGE)
            <==> Start(size, threads, threads - 1) % PAGE <= (size - 1) % PAGE
  {
    hide Start;
    hide End;
    var g, s := (size - 1) / PAGE, Start(size, threads, threads - 1);
    LastStart(size, threads);
    if s % PAGE <= (size - 1) % PAGE {
      var y := LastPageStep(size, s);
      assert Writes(size, threads, threads - 1, y);
      assert Written(size, threads, y);
    }
    if PageTouched(size, threads, g) {
      var y :| g * PAGE <= y < (g + 1) * PAGE && Written(size, threads, y);
      var t: nat :| Writes(size, threads, t, y);
      LastPageOwner(size, threads, t, y);
    }
  }

  ghost predicate AllPagesTouched(size: nat, threads: nat)
    requires threads > 0
  {
    forall g: nat :: g * PAGE < size ==> PageTouched(size, threads, g)
  }

  /** Every page of a page-aligned region is touched whenever the size is a multiple of
      4 KiB.  For any size it is if and only if the last thread's start lies no further
      into its page than the region's last byte. */
  lemma AllPagesIff(size: nat, threads: nat)
    requires threads > 0 && size > 0
    ensures AllPagesTouched(size, threads) <==> Start(size, threads, threads - 1) % PAGE <= (size - 1) % PAGE
    ensures size % PAGE == 0 ==> AllPagesTouched(size, threads)
  {
    hide Start;
    hide Written;
    LastPageIff(size, threads);
    forall g: nat | (g + 1) * PAGE <= size ensures PageTouched(size, threads, g) {
      EveryWindowTouched(size, threads, g * PAGE);
    }
    forall g: nat | g * PAGE < size < (g + 1) * PAGE ensures g == (size - 1) / PAGE {}
    assert (size - 1) / PAGE * PAGE < size;
  }

  /** The program passes whole mebibytes, so no page is left out. */
  lemma WholeMebibytesTouched(mebibytes: nat, threads: nat)
    requires mebibytes > 0 && threads > 0
    ensures AllPagesTouched(mebibytes * 0x10_0000, threads)
  {
    hide AllPagesTouched;
    AllPagesIff(mebibytes * 0x10_0000, threads);
  }

  /** A size the program never passes: with two threads on three pages and two bytes the
      fourth page would be left out. */
  lemma PageMissed()
    ensures !AllPagesTouched(12290, 2)
  {
    assert Start(12290, 2, 1) == 6145;
    AllPagesIff(12290, 2);
  }
}
