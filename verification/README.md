# Verified model of the RDMA simulation, the memory bandwidth tests and their tools

This project models the concurrent, time-keeping and memory-layout parts of the
repository in Dafny and proves what they are meant to guarantee. `dafny verify
dfyconfig.toml` checks all of it.

**The lock-free queue** (`MpscProtocol`, `MpscTheorems`, `MpscEarlier`, `MpscQueue`).
N readers push nodes into an intrusive queue that one RNIC thread pops. `MpscProtocol` is
a step system: every atomic load, store and exchange of `mpsc_enqueue` and `mpsc_dequeue` is
one step, with a program counter per producer and for the consumer, and steps
interleave in any order. The model keeps the order of the `tail` exchanges as a history
and, for every gap between an exchange and its link, the thread that will close it.
The flag `rearm` chooses between the queue of `test2-rdma3.c`, which inserts its stub
again, and the earlier one of `test2-rdma.c`, which does not. `MpscTheorems` proves
first-in first-out delivery, safe reuse of returned nodes, honest NULL returns and
draining for all executions. `MpscEarlier` proves what the earlier version returns: every
pending node but the newest. `MpscQueue` is the same code on heap nodes.

**The gate, the link and the sweep** (`StartGate`, `LinkTimeline`, `SweepModel`,
`SweepSafety`, `SweepTheorems`, `SweepTiming`, `SweepLiveness`). `StartGate` is the mutex
and the one condition variable, with spurious wakeups and with `gate_open_after_created`.
`LinkTimeline` is the serialized link. `SweepModel` puts queue, link, response flags,
gate, readers, RNIC and main thread together under an arbitrary non-decreasing clock.
Safety is an invariant kept by every step; `SweepTiming` follows the clock readings
through whole executions, so that the bandwidth gate is stated on the clock alone;
progress is a lexicographic rank that no step raises and that every fair run must lower
until the main thread returns.

**Two other link models** (`WindowLimiter`, `WindowLag`): the windowed limiter of
`test2-rdma-fin.c`, and the one-millisecond windows with carried lag of
`test2-rdma2.c`. For both, the windows are a record of their own, with start and number of
requests, from which every deadline is explained and the rate is bounded.

**The block stores** (`Word64`, `HugePages`, `BlockBytes`, `ChunkStripe`,
`SweepOverStore`, `MultiTurn`, `TurnRead`). Stores are byte arrays, tags are
little-endian 64-bit words, and every 64-bit sum and product of the sizing and address
code is written with its wrap-around.
`HugePages` is the rounding of the allocation. `SweepOverStore` runs the sweep, and
`TurnRead` the threads of one cumulative read of `test3-mt.c`, on a store with any content:
the failures reported are exactly its damaged blocks. On the bytes that population, or the
turns, leave there are none.

**Access patterns and traces** (`PointerRing`, `StrideCover`, `TraceMerge`,
`PreTouch`): the shuffled pointer chase, the phase-based strided sweep, the compaction
of recorded traces, and the parallel first touch of a region.

`Wrappers`, `Sums`, `Spans` and `DistinctIds` are shared helpers.

Assumptions: threads interleave at their atomic accesses (sequential consistency);
times are reals, service times are positive; the clock never goes back, and where a
timeline starts from the value 0 as a sentinel its readings are not negative.

Where the code falls short of what its comments or callers suggest, the model follows
the code and proves exactly when it does not:

- **The strided sweep does not always cover all memory**, as the comments at lines 1001
  and 1145 of `src/benchmark.cpp` say it does. `StrideCover.AllCoveredIff` gives the
  exact condition in region, stride and block size; `StrideCover.LastByteMissed` is the
  case of one MiB with block size and stride 100. Only bytes among the last 31 of a
  region can be missed, and none when 32 divides all three sizes, as it does by default.
  When the stride is not a multiple of the block size some lanes are accessed twice
  (`StrideCover.ExactlyOnceIff`).
- **2^32 - 1 rounds write behind the store** in `test3-mt.c`. The turn counter wraps to
  0, `turn - 1` wraps back to 2^32 - 1, and the first write of that turn goes to the
  offset that is the size of the store (`MultiTurn.TurnZeroEscapes`). All writes stay
  inside the store if and only if there are fewer rounds (`MultiTurn.WritesInside`);
  `MultiTurn.ManyRoundsAccepted` is a configuration with that many that is accepted.
- **The allocation of `test2-rdma3.c` can wrap.** Rounding up to 2 MiB is not checked,
  so the store is covered if and only if it needs at most 2^64 - 2^21 bytes
  (`ChunkStripe.AllocationCovers`; `ChunkStripe.AllocationWraps` is an accepted
  configuration whose rounded length is 0). The version in `test3-mt.c` checks it
  (`HugePages.CheckedLengthCovers`).
- **The first-touch marker is not always non-zero**: it is zero for thread 165 and every
  256th thread after it (`PreTouch.MarkerNonZero`).
- `src/benchmark.cpp` line 1304 speaks of 256-byte nodes; the constant is 64.

First touch does fault every page: the program passes whole mebibytes, and then no page
of a page-aligned region is left out (`PreTouch.WholeMebibytesTouched`). Only the
function taken by itself, called with a size that is no multiple of 4 KiB, could leave
out the last, partial page; `PreTouch.AllPagesIff` says when, and `PreTouch.PageMissed`
is an example that the program cannot produce.

`ChunkStripe.SmallConfiguration`, `MultiTurn.SmallConfiguration` and
`WindowLimiter.SlotsFromConfiguration` work out the sizing, and the 100 slots of a
window, for concrete numbers.

## Model

| member | source | states |
|---|---|---|
| `MpscProtocol.InitInv` | custom-test/test2-rdma3.c:217-222 | the initial queue satisfies the invariant: distinct nodes from `head` to `tail`, each adjacent pair linked or owned by the one thread about to link it |
| `MpscProtocol.StepKeepsInv` | custom-test/test2-rdma3.c:225-281 | every step of every thread keeps that invariant, with or without the re-armed stub |
| `MpscProtocol.SwapKeepsInv` | custom-test/test2-rdma3.c:230-231 | the exchange of `tail` opens exactly one gap, owned by the exchanging producer |
| `MpscProtocol.LinkKeepsChain` | custom-test/test2-rdma3.c:233-234 | linking closes exactly one gap and leaves the `next` of every node outside the queue alone |
| `MpscProtocol.HeadNext` | custom-test/test2-rdma3.c:250-259 | a non-NULL `head->next` is the linked successor; a NULL one means `head` is the tail or its successor is not linked yet |
| `MpscTheorems.ReachableInv` | custom-test/test2-rdma3.c:217-281 | the invariant holds in every state of every execution |
| `MpscTheorems.StepRefinesFifo` | custom-test/test2-rdma3.c:225-281 | every step is a step of an abstract FIFO: insertion at the exchange, removal at the store of `head`, nothing otherwise |
| `MpscTheorems.FifoDelivery` | custom-test/test2-rdma3.c:225-281 | in every interleaving the returned nodes followed by the queued ones are exactly the inserted ones in exchange order, and the stub is never returned |
| `MpscTheorems.ReturnedAtMostOnce` | custom-test/test2-rdma3.c:248-281 | if no node is inserted twice, none is returned twice |
| `MpscTheorems.StepMembership` | custom-test/test2-rdma3.c:225-281 | a node is in the queue exactly from its exchange until it is returned |
| `MpscTheorems.ReturnReleases` | custom-test/test2-rdma3.c:261-279 | when a node is returned, neither `head`, `tail`, the chain nor any producer's `prev_tail` refers to it |
| `MpscTheorems.ReclamationSafe` | custom-test/test2-rdma3.c:225-281 | after a node is returned no step of any thread loads or stores its `next` until its owner enqueues it again |
| `MpscTheorems.TouchesAll` | custom-test/test2-rdma3.c:225-281 | each step loads and stores no `next` field but those counted as touched: it leaves every other one alone, and its effect and outcome do not depend on it |
| `MpscTheorems.RearmIsSafe` | custom-test/test2-rdma3.c:271-273 | the stub is in the chain at most once, and while it is reset and re-inserted it is out of the chain and no producer is about to write its link |
| `MpscTheorems.NullIsHonest` | custom-test/test2-rdma3.c:239-281 | a call returns NULL only if at some moment during it nothing was queued or a producer was between exchange and link |
| `MpscTheorems.LoneCall` | custom-test/test2-rdma3.c:248-281 | with no producer mid-insert, a call running alone returns the oldest queued node, and NULL only when there is none |
| `MpscTheorems.DrainReturnsAll` | custom-test/test2-rdma3.c:242-281 | repeated calls then return every pending node in order, and NULL afterwards |
| `MpscTheorems.NoRearmHistory` | custom-test/test2-rdma.c:227-262 | without the re-arm the stub is never inserted again and what has been returned lies strictly before `head`; what a call does return is in `MpscEarlier` |
| `MpscTheorems.NoRearmLosesNewest` | custom-test/test2-rdma.c:241-262 | without the re-arm, after n >= 1 insertions every execution has returned a proper prefix of them, at most n - 1 nodes; `MpscEarlier.DrainKeepsNewest` says that all the others do come |
| `MpscEarlier.EarlierCall` | custom-test/test2-rdma.c:241-262 | without the re-arm and with no producer mid-insert, a call running alone returns the oldest node if at least two are queued, and NULL, leaving the queue as it is, if not |
| `MpscEarlier.EarlierDrain` | custom-test/test2-rdma.c:241-262 | repeated calls return every pending node but the newest, in order, and NULL from then on |
| `MpscEarlier.DrainKeepsNewest` | custom-test/test2-rdma.c:227-262 | both, from every reachable state with the consumer idle and no producer mid-insert |
| `MpscQueue.Queue.constructor` | custom-test/test2-rdma3.c:217-222 | a new queue is valid and empty |
| `MpscQueue.Queue.Enqueue` | custom-test/test2-rdma3.c:225-237 | on heap nodes, without interference: appends the node, `head` unchanged |
| `MpscQueue.Queue.Append` | custom-test/test2-rdma3.c:225-237 | the same body for the stub as well: new tail, old tail linked to it, all other links unchanged |
| `MpscQueue.Queue.Dequeue` | custom-test/test2-rdma3.c:248-281 | returns and removes the oldest node, NULL exactly when empty; the returned node is no longer in the chain |
| `StartGate.StepKeepsInv` | custom-test/test2-rdma3.c:503-542 | every lock, unlock, wait, broadcast, spurious wakeup and field access keeps mutual exclusion, the count of arrivals and the absence of lost wakeups |
| `StartGate.NobodyPassesEarly` | custom-test/test2-rdma3.c:512-542 | in every run nobody is through before `open`, and `open` implies that `ready`, `total` and the number of created readers agree and all have arrived, also after `total` was lowered |
| `StartGate.WakesOnlyWhenFull` | custom-test/test2-rdma3.c:512-520 | in every run a reader broadcasts only if its arrival makes `ready` equal to `total` |
| `StartGate.WakeupsAreBroadcasts` | custom-test/test2-rdma3.c:512-532 | a broadcast leaves nobody asleep, and apart from spurious wakeups no other step wakes anybody |
| `StartGate.SleepersAreJustified` | custom-test/test2-rdma3.c:512-542 | whenever the mutex is free, whoever sleeps on the shared condition variable waits for something that does not hold |
| `StartGate.NoDeadlock` | custom-test/test2-rdma3.c:512-542 | once the main thread has entered and every created reader has arrived, some thread can move until all are through |
| `LinkTimeline.CompletionClosedForm` | custom-test/test2-rdma3.c:756-766 | the k-th completion is the maximum over j <= k of now_j + (k - j + 1) service times |
| `LinkTimeline.SentinelOnce` | custom-test/test2-rdma3.c:756-757 | the timeline is positive after the first request, so the sentinel branch is taken once |
| `LinkTimeline.TransfersDisjoint` | custom-test/test2-rdma3.c:756-766 | a transfer starts no earlier than its arrival and exactly `lag` after the previous one ends |
| `LinkTimeline.TimeConserved` | custom-test/test2-rdma3.c:756-766 | final `ntime` is the first arrival plus all lags plus one service time per request |
| `LinkTimeline.FullServiceTime` | custom-test/test2-rdma3.c:756-766 | after n requests the link is reserved at least n service times beyond the first arrival |
| `LinkTimeline.Nic.BookRequest` | custom-test/test2-rdma3.c:756-766 | the in-place update of `ntime`, `stime` and `lag` is the booking function; the deadline is the new `ntime` |
| `LinkTimeline.Nic.Serve` | custom-test/test2-rdma3.c:740-774 | every deadline the loop stamps is the closed form |
| `SweepSafety.StepKeepsInv` | custom-test/test2-rdma3.c:633-776 | every step of readers, RNIC, main thread, clock and spurious wakeups keeps the coupling of queue, link, flags, gate and counters |
| `SweepTheorems.ReachableInv` | custom-test/test2-rdma3.c:780-930 | that coupling holds in every state of every execution with all readers created |
| `SweepTheorems.ResponsesExactlyOnce` | custom-test/test2-rdma3.c:738-775 | no response is signalled twice, each only after its reader has finished its enqueue, and the RNIC leaves its loop after exactly n requests, one per reader |
| `SweepTheorems.GateOpensLate` | custom-test/test2-rdma3.c:676-766 | the gate is never open earlier than the first booked time plus n service times; `SweepTiming` ties the booked times to the clock |
| `SweepTiming.ReadingOf` | custom-test/test2-rdma3.c:740-748 | in every execution the k-th booked time is what the clock showed in the step in which the RNIC, holding the k-th dequeued node, called `now_ns` |
| `SweepTiming.ReadingBetween` | custom-test/test2-rdma3.c:740-748 | that reading lies between the clock at the return of the k-th dequeue and the current clock |
| `SweepTiming.StampReading` | custom-test/test2-rdma3.c:653-655 | until its request is booked a reader's deadline is what the clock showed when it stamped the request |
| `SweepTiming.DeadlineClosedForm` | custom-test/test2-rdma3.c:747-766 | the deadline a reader waits for is the closed form of the link over those readings |
| `SweepTiming.GateBoundsBandwidth` | custom-test/test2-rdma3.c:676-766 | in every execution, when the gate is open the clock has advanced by n service times since the step whose dequeue was the first to return a node |
| `SweepTiming.BandwidthGate` | custom-test/test2-rdma3.c:676-766 | and if there are readers at all, such a step has happened before the gate is open |
| `SweepTheorems.ReadsAfterOpen` | custom-test/test2-rdma3.c:685-698 | no reader reads a block before the gate is open |
| `SweepTheorems.LocalFailIs` | custom-test/test2-rdma3.c:686-698 | what a reader counts is the number of its blocks that do not verify |
| `SweepTheorems.FinalTotals` | custom-test/test2-rdma3.c:700-704 | when the main thread is done, the counters are the number of blocks, the number of blocks that do not verify and the sum over all blocks, modulo 2^64, in every interleaving |
| `SweepTheorems.CleanSweep` | custom-test/test2-rdma3.c:686-704 | if every block verifies, the failure counter ends at 0 |
| `SweepLiveness.StepRank` | custom-test/test2-rdma3.c:657-776 | no step raises the rank; a step that keeps it is a failed poll, a clock tick, or an RNIC step while enqueues are still to come |
| `SweepLiveness.ReadyLowersRank` | custom-test/test2-rdma3.c:657-776 | the step of a ready thread is enabled and lowers the rank |
| `SweepLiveness.NeverStuck` | custom-test/test2-rdma3.c:657-911 | in every reachable unfinished state some enabled step lowers the rank, or a reader waits and, at any clock that has reached its deadline, its next step is enabled and lowers the rank |
| `SweepLiveness.FairRunsEnd` | custom-test/test2-rdma3.c:657-911 | every fair run reaches a state where the main thread has returned, all readers and the RNIC have exited after n requests, and each response was signalled exactly once |
| `WindowLimiter.WindowsDisjointAndBounded` | custom-test/test2-rdma-fin.c:731-748 | for arbitrary arrival stamps the windows never overlap, each admits 1 to 100 requests, and together they admit all |
| `WindowLimiter.RateBound` | custom-test/test2-rdma-fin.c:731-748 | after n >= 1 requests `ntime` is at least the first stamp plus 100 service times per started hundred |
| `WindowLimiter.EveryDeadline` | custom-test/test2-rdma-fin.c:731-748 | every window of a run with its deadlines: an idle link opens the window at the stamp and takes 2000 ns; a follow-on window opens only behind a full one, at its end, and its opener completes 1000 ns into it; every other request was stamped before the window's end and completes 1000 ns after its stamp plus the time the opener was held |
| `WindowLimiter.DeadlineInWindow` | custom-test/test2-rdma-fin.c:731-748 | for stamps in dequeue order, every deadline is at least 1000 ns after the start of the request's window |
| `WindowLimiter.DeadlineFloor` | custom-test/test2-rdma-fin.c:731-748 | for stamps in any order, every deadline is at least 1000 ns after the request's stamp |
| `WindowLimiter.Nic.AdmitRequest` | custom-test/test2-rdma-fin.c:731-748 | the in-place update of the three branches is the admission function whose windows and deadlines `WindowsDisjointAndBounded` and `EveryDeadline` describe |
| `WindowLimiter.Nic.Serve` | custom-test/test2-rdma-fin.c:718-773 | the deadlines the loop stamps are those of the windows described for `EveryDeadline`, and never below stamp + 1000 |
| `WindowLag.AdmitKeepsBound` | custom-test/test2-rdma2.c:752-788 | lag and delay stay within 1 ms from request to request, provided the clock passed the deadline in between |
| `WindowLag.BusyWaitIsNeeded` | custom-test/test2-rdma2.c:752-788 | without the busy-wait three requests at one instant leave a lag of 2 ms |
| `WindowLag.EveryWindow` | custom-test/test2-rdma2.c:747-776 | every run is a sequence of one-millisecond windows after the requests admitted before the first: each starts at a clock reading or, if the time before is used up, at the end of that time; its opener is held until that start, every other request for exactly the lag the window was opened with, unless it comes at the very end |
| `WindowLag.FitsMost` | custom-test/test2-rdma2.c:747-776 | a window admits at most max(1, floor(1 ms / delta)) requests, or max(1, floor(1 ms / delta) - 1) if it was opened behind another one |
| `WindowLag.StartsApart` | custom-test/test2-rdma2.c:747-776 | window j starts at least j milliseconds after the first one |
| `WindowLag.DeadlineInWindow` | custom-test/test2-rdma2.c:747-788 | since deadlines are waited out, no request completes before its window starts |
| `WindowLag.RateBound` | custom-test/test2-rdma2.c:747-788 | so the k-th request after the free ones completes at least floor(k / max(1, floor(1 ms / delta))) milliseconds after the start of the first window |
| `WindowLag.Rnic.AdmitRequest` | custom-test/test2-rdma2.c:747-772 | the in-place update of the three branches, with its double service time in the second, is the admission function whose windows and holding times `EveryWindow` describes |
| `WindowLag.Rnic.BusyWait` | custom-test/test2-rdma2.c:784-788 | consumes readings up to and including the first one at or past the deadline |
| `WindowLag.Rnic.RnicThread` | custom-test/test2-rdma2.c:733-797 | over any ascending clock every request is dequeued at a reading, has 0 <= lag <= 1 ms and 0 <= deadline - dequeue time <= 1 ms, none is dequeued before the previous deadline, and the run has the windows of `EveryWindow` |
| `WindowLag.Rnic.Sweeps` | custom-test/test2-rdma2.c:733-797 | all that for every sweep, each starting with the lag with which the one before ended |
| `Word64.CheckedMulExact` | custom-test/test2-rdma3.c:482-487 | the quotient test refuses exactly the products of 2^64 and more |
| `HugePages.RoundUpCovers` | custom-test/test2-rdma3.c:584-587 | the unchecked rounding to 2 MiB covers the size if and only if it is at most 2^64 - 2^21; beyond that it gives 0 |
| `HugePages.CheckedLengthCovers` | custom-test/test3-mt.c:391-401 | the checked rounding refuses exactly the empty store and the sizes whose rounding would not cover them |
| `BlockBytes.FillBits` | custom-test/test2-rdma3.c:550-553 | every bit of the fill byte is the parity of the bits of 0xa5, of 31 times the request and of 17 times the block number |
| `BlockBytes.FillDistinguishes` | custom-test/test2-rdma3.c:550-553 | fill bytes of two requests, or of two blocks, agree exactly when the numbers agree modulo 256 |
| `BlockBytes.ByteAt` | custom-test/test2-rdma3.c:555-567 | byte k of a stored word is the word divided by 256^k, modulo 256 |
| `BlockBytes.ImageBytes` | custom-test/test2-rdma3.c:555-567 | the filled block, byte by byte: the little-endian bytes of the tag words, then the fill byte up to the end |
| `BlockBytes.TagRoundTrip` | custom-test/test2-rdma3.c:555-578 | loading word i of a stored tag gives the word that was stored |
| `BlockBytes.TagDetermined` | custom-test/test2-rdma3.c:569-580 | the words loaded from a block are those of a tag if and only if its bytes are |
| `BlockBytes.FillBlock` | custom-test/test2-rdma3.c:555-567 | writes the tag followed by fill bytes over exactly the block, nothing else |
| `ChunkStripe.SizeCheckExact` | custom-test/test2-rdma3.c:949-957 | a configuration is refused exactly when its store needs 2^64 bytes or more; the unchecked chunk count never wraps |
| `ChunkStripe.AllocationCovers` | custom-test/test2-rdma3.c:949-989 | the store allocated for an accepted configuration holds all its bytes if and only if they are at most 2^64 - 2^21 |
| `ChunkStripe.SlotInStore` | custom-test/test2-rdma3.c:598-607 | every block's slot is inside the store |
| `ChunkStripe.SlotsDistinct` | custom-test/test2-rdma3.c:598-607 | different blocks have different slots |
| `ChunkStripe.BlocksDisjoint` | custom-test/test2-rdma3.c:598-607 | the byte ranges of different blocks do not overlap |
| `ChunkStripe.BlockPtrExact` | custom-test/test2-rdma3.c:598-607 | for an accepted configuration no 64-bit step of `block_ptr` wraps and the block lies inside the store |
| `ChunkStripe.VerifyIff` | custom-test/test2-rdma3.c:569-580 | a block of any content passes if and only if its first 32 bytes are the tag as stored and its last byte is the fill byte |
| `ChunkStripe.VerifyFilled` | custom-test/test2-rdma3.c:555-581 | a filled block verifies for its own request and block number and for no other |
| `ChunkStripe.VerifyZero` | custom-test/test2-rdma3.c:569-581 | a zeroed slot verifies for nothing |
| `ChunkStripe.ClearChunk` | custom-test/test2-rdma3.c:616-617 | zeroes exactly the slots of the chunk |
| `ChunkStripe.FillSlot` | custom-test/test2-rdma3.c:618-623 | gives one slot its block, or leaves it zero if there is no such request; all other slots unchanged, no 64-bit step wraps |
| `ChunkStripe.PopulateChunk` | custom-test/test2-rdma3.c:616-624 | after clearing and filling, every slot of the chunk holds what belongs there, all others unchanged |
| `ChunkStripe.Populate` | custom-test/test2-rdma3.c:609-629 | after the nested loops every slot of the store holds what belongs there |
| `ChunkStripe.VerifiesOnlyInPlace` | custom-test/test2-rdma3.c:550-629 | in a populated store a slot verifies for an in-range request and block if and only if it is their slot; padding verifies for nothing |
| `ChunkStripe.ReadBack` | custom-test/test2-rdma3.c:598-629 | the bytes at the address `block_ptr` gives are the block as filled, and verify |
| `SweepOverStore.AnySweep` | custom-test/test2-rdma3.c:684-706 | over a store with any content every finished sweep reports, in every interleaving, all blocks of the active requests, exactly the blocks whose tag or last byte is wrong if it verifies, and their end bytes added up modulo 2^64 |
| `SweepOverStore.PopulatedSweep` | custom-test/test2-rdma3.c:609-706 | every finished sweep over the populated store, with or without verification, ends with 0 failures, active * req_per_blocks blocks read (without wrapping), and one checksum for all interleavings |
| `MultiTurn.SizeCheckExact` | custom-test/test3-mt.c:558-565 | a configuration is refused exactly when its store needs 2^64 bytes or more |
| `MultiTurn.BlockPtrExact` | custom-test/test3-mt.c:413-425 | no 64-bit step of the address computation wraps and the block lies inside the store |
| `MultiTurn.BlocksDisjoint` | custom-test/test3-mt.c:413-425 | the byte ranges of different blocks do not overlap |
| `MultiTurn.VerifyIff` | custom-test/test3-mt.c:355-368 | a block of any content passes if and only if its first 40 bytes are the tag as stored, with the turn of the block, and its last byte is the fill byte |
| `MultiTurn.BlockVerifies` | custom-test/test3-mt.c:340-368 | a block tagged with its turn verifies for its own request and block number and for no other |
| `MultiTurn.TurnOfBlock` | custom-test/test3-mt.c:361-361 | the blocks written in a turn are those whose number gives that turn |
| `MultiTurn.WriteOffsetIs` | custom-test/test3-mt.c:430-436 | for turns 1 to `rounds`, with `turn - 1` in 32 bits and all else in 64, each write goes to the start of its block, inside the store |
| `MultiTurn.TurnZeroEscapes` | custom-test/test3-mt.c:430-436 | with 2^32 - 1 rounds the wrapped turn 0 writes its first block at the offset that is the size of the store |
| `MultiTurn.WriteBlock` | custom-test/test3-mt.c:435-436 | writes one block where it belongs; no byte outside its slot changes |
| `MultiTurn.WriteTurn` | custom-test/test3-mt.c:427-440 | for every turn the loop reaches: turns from 1 on write all their blocks and change no byte before or after their part of the store; turn 0 is stopped in front of its first write, which does not fit |
| `MultiTurn.VerifiesOnlyInPlace` | custom-test/test3-mt.c:355-440 | in a written store exactly one slot verifies for a request and block number |
| `MultiTurn.CleanRead` | custom-test/test3-mt.c:454-466 | of the written blocks of a request none is damaged, and their end bytes add up to what the layout determines |
| `MultiTurn.ReaderThread` | custom-test/test3-mt.c:442-474 | over a store with any content the reader's loop counts its blocks and, if it verifies, exactly those whose tag or last byte is wrong, and adds up their end bytes modulo 2^64 |
| `MultiTurn.ReadCumulative` | custom-test/test3-mt.c:476-548 | over a store with any content the readers' counters, added one reader after the other, give requests * turn * req_per_blocks blocks and the number of wrong blocks, both without wrapping, and the end bytes modulo 2^64; `TurnRead.EveryRead` covers the threads |
| `MultiTurn.CleanReport` | custom-test/test3-mt.c:427-548 | in a store written up to a turn that is no failure and the checksum the layout determines |
| `MultiTurn.TurnLoopEnds` | custom-test/test3-mt.c:609 | the guard of the turn loop fails after exactly `rounds` turns, and it ever fails if and only if `rounds` is not 2^32 - 1 |
| `MultiTurn.WritesInside` | custom-test/test3-mt.c:427-440 | in an accepted configuration every write of every turn the loop gets to is inside the store if and only if `rounds` is not 2^32 - 1 |
| `MultiTurn.RunTurns` | custom-test/test3-mt.c:609-652 | for any number of rounds, after each of them the cumulative read reports all blocks so far and no failure and at the end the whole store is written; a write behind the store is then next if and only if there are 2^32 - 1 rounds |
| `TurnRead.StepKeepsInv` | custom-test/test3-mt.c:442-548 | every step of main thread and readers, and every spurious wakeup, keeps gate, positions and counters consistent |
| `TurnRead.NeverStuck` | custom-test/test3-mt.c:297-548 | in every reachable unfinished state of a cumulative read some thread can move without a spurious wakeup |
| `TurnRead.ReadsAfterOpen` | custom-test/test3-mt.c:452-466 | no reader reads a block before the gate is open, and then every reader has been created and has arrived |
| `TurnRead.EveryRead` | custom-test/test3-mt.c:442-548 | over a store with any content every interleaving of creation, gate, reads and atomic additions ends with the report that belongs to the store: all blocks so far, exactly the wrong ones, the end bytes modulo 2^64 |
| `TurnRead.EveryReadClean` | custom-test/test3-mt.c:442-548 | after the turn has been written that is all blocks written so far, no failure and the expected checksum |
| `PointerRing.ShuffledIsPerm` | src/benchmark.cpp:1368-1380 | for every sequence of draws the shuffle keeps a permutation |
| `PointerRing.ShuffledPicks` | src/benchmark.cpp:1373-1380 | the draw for the last open position picks its node from the open ones, and the last open node takes the place of the one picked |
| `PointerRing.DrawsDetermined` | src/benchmark.cpp:1373-1380 | different draws give different orders |
| `PointerRing.DrawsReach` | src/benchmark.cpp:1373-1380 | every order is reached by some draws |
| `PointerRing.ShuffleIsBijective` | src/benchmark.cpp:1368-1380 | the orders of the nodes correspond one to one to the sequences of draws, so uniform draws give a uniform order |
| `PointerRing.Shuffle` | src/benchmark.cpp:1368-1380 | the in-place loops compute the shuffled order of 0..n-1 |
| `PointerRing.BuildRing` | src/benchmark.cpp:1382-1390 | each node's first word is the address of the next node in the shuffled order |
| `PointerRing.FollowRing` | src/benchmark.cpp:1382-1432 | h hops from position j of the order lead to position j + h around the ring |
| `PointerRing.OneCycle` | src/benchmark.cpp:1368-1432 | from any node the first n positions are distinct, every node is among them, and hop n is back at the start |
| `PointerRing.Walk` | src/benchmark.cpp:1422-1432 | the measurement loop follows the links and never leaves the nodes |
| `PointerRing.Chase` | src/benchmark.cpp:1368-1432 | shuffling, linking and chasing together |
| `StrideCover.Sweep` | src/benchmark.cpp:1059-1095 | the nested loops make exactly the accesses of the trace, and the batched progress adds up to 32 bytes per access |
| `StrideCover.PhaseCount` | src/benchmark.cpp:1063-1092 | a phase accesses an offset at most once, and exactly the ones in its blocks |
| `StrideCover.PhaseAscends` | src/benchmark.cpp:1063-1092 | a phase goes through the region once, upwards |
| `StrideCover.EveryByteCovered` | src/benchmark.cpp:1059-1094 | for any block size and stride, every byte with 32 bytes of the region from it on lies in some access, so only the last 31 can be missed |
| `StrideCover.AccessedIff` | src/benchmark.cpp:1059-1094 | for any block size and stride, exactly which offsets are accessed, as a condition on the remainders of offset and stride |
| `StrideCover.LastAccessDecides` | src/benchmark.cpp:1001-1094 | a non-empty region is covered if and only if an access starts 32 bytes before its end |
| `StrideCover.AllCoveredIff` | src/benchmark.cpp:1001-1094 | for any region, block size and stride, the claim "cover all memory" holds if and only if the region is empty or the remainders of its end and of the stride meet the condition of `Accessed` |
| `StrideCover.AlignedIsCovered` | src/benchmark.cpp:1001-1094 | it holds whenever 32 divides block size, stride and region |
| `StrideCover.AccessInside` | src/benchmark.cpp:1069-1069 | every access is inside the thread's region |
| `StrideCover.LanesCovered` | src/benchmark.cpp:1059-1094 | when 32 divides block size and stride, an offset is accessed at least once if and only if it is a whole lane |
| `StrideCover.SecondStretchTwice` | src/benchmark.cpp:1203-1240 | when the stride is not a multiple of the block size and the region is long enough, the lane that starts the second stretch is accessed at least twice |
| `StrideCover.ExactlyOnceIff` | src/benchmark.cpp:1059-1094 | when 32 divides both, every whole lane is accessed exactly once if and only if the stride is a multiple of the block size or the region ends before the second stretch's first whole lane |
| `StrideCover.BytesReported` | src/benchmark.cpp:1085-1095 | the total is then 32 * floor(size / 32) |
| `TraceMerge.MergeBuffer` | src/tracing.cpp:54-75 | the loop with its skipped index computes the merged buffer |
| `TraceMerge.MergeIsLossless` | src/tracing.cpp:57-73 | splitting the merged entries restores the thread's sequence of address, size and type |
| `TraceMerge.EntryIsRecorded` | src/tracing.cpp:58-72 | each processed entry carries timestamp, address and type of one recorded access, for a merged pair of its first |
| `TraceMerge.MarksAreSizes` | src/tracing.cpp:58-68 | when no recorded access has 64 bytes, the merged entries are exactly the 64-byte ones |
| `TraceMerge.MergeKeepsBytes` | src/tracing.cpp:57-73 | merging conserves the bytes accessed |
| `TraceMerge.MergeIsIrreducible` | src/tracing.cpp:57-73 | no two neighbours of a processed buffer are 32-byte accesses of equal type, read or write, the second 32 bytes after the first modulo 2^64 |
| `TraceMerge.RunsAreMerged` | src/tracing.cpp:57-73 | in every maximal run of m such accesses exactly the first floor(m / 2) pairs from the left are merged; a single one stays, at the end, exactly when m is odd |
| `TraceMerge.MergedRunByRun` | src/tracing.cpp:57-73 | the whole processed buffer is its maximal runs one after the other, each in such pairs |
| `TraceMerge.MergeTwice` | src/tracing.cpp:57-73 | merging again changes nothing |
| `TraceMerge.Join` | src/tracing.cpp:52-81 | the processed buffers one after the other |
| `TraceMerge.JoinedAt` | src/tracing.cpp:76-81 | each thread's processed buffer is there in full, right after those of the threads before it |
| `TraceMerge.JoinKeepsBytes` | src/tracing.cpp:52-81 | joining conserves the bytes recorded by all threads |
| `TraceMerge.KeepsEarliest` | src/tracing.cpp:83-91 | after any sort by timestamp, min(n, 1000000) entries are kept, kept and dropped together are all, and no dropped one is earlier than a kept one |
| `TraceMerge.StampsDetermined` | src/tracing.cpp:83-91 | the kept timestamps do not depend on how the unstable sort orders equal ones |
| `TraceMerge.ShortTraceIsComplete` | src/tracing.cpp:52-91 | a trace within the limit holds every byte the threads recorded |
| `PreTouch.RangesPartition` | src/main_patched.cpp:57-63 | the thread ranges are disjoint and make up exactly the region |
| `PreTouch.RangeSizes` | src/main_patched.cpp:56-62 | every thread has size / threads bytes, the last one the remainder as well |
| `PreTouch.MarkerNonZero` | src/main_patched.cpp:64-65 | the marker is non-zero if and only if the thread number is not 165 modulo 256 |
| `PreTouch.MarkerBits` | src/main_patched.cpp:64-65 | every bit of the marker is the exclusive or of those of 0xa5 and of the thread number |
| `PreTouch.Range` | src/main_patched.cpp:56-62 | the start and length a thread computes are those of its range, the last thread's up to the end of the region |
| `PreTouch.TouchRange` | src/main_patched.cpp:57-69 | a thread writes its marker at every 4 KiB step of its range and nothing else |
| `PreTouch.FirstTouch` | src/main_patched.cpp:41-72 | one thread after the other: every byte a thread owns a step at holds that thread's marker, all other bytes are unchanged; nothing happens for size 0 or no threads |
| `PreTouch.AnyInterleaving` | src/main_patched.cpp:48-71 | in every interleaving of the threads' writes, when all have finished the region is as `FirstTouch` leaves it |
| `PreTouch.TouchedUnique` | src/main_patched.cpp:48-71 | that outcome is the same bytes for every interleaving |
| `PreTouch.EveryWindowTouched` | src/main_patched.cpp:57-69 | every 4096-byte window inside the region contains a written byte, wherever the thread boundaries fall |
| `PreTouch.WholeMebibytesTouched` | src/main_patched.cpp:577-689 | for the sizes the program passes, whole mebibytes, every page of a page-aligned region is touched, for any number of threads |
| `PreTouch.AllPagesIff` | src/main_patched.cpp:36-69 | the same for every multiple of 4 KiB, and for any size the exact condition: the last thread's start is no further into its page than the last byte of the region |

## Left out

- Weak memory: acquire and release accesses are interleaved steps; `head` is used by the consumer alone and `response_ready` publishes the deadline.
- IEEE rounding: times are reals.
- Partial creation and allocation failure in `run_one_sweep`: only the gate step is modelled (`StartGate`, `OpenCreated`). On that path the RNIC still waits for all requests before it is joined, so no termination is claimed.
- `SweepLiveness.FairRunsEnd`: spurious wakeups are bounded by an arbitrary finite budget, and a failed poll is a step that leaves the state as it is.
- `MpscQueue.Queue.Dequeue`: runs without interference, so its two late NULL returns cannot happen; the interleavings are in `MpscProtocol`.
- `WindowLag.Rnic.RnicThread`: the clock is a finite sequence of readings; the loop stops early only when they run out.
- `MultiTurn.RunTurns`: stops in front of the write behind the store that 2^32 - 1 rounds lead to; what that write does is not modelled.
- `MultiTurn.ReadCumulative`: adds the readers' counters in join order and has no gate; `TurnRead` has the threads and the gate, and proves absence of deadlock but not that every fair run ends.
- `PreTouch.FirstTouch`: the region is an array, so never null; the threads run one after the other, `AnyInterleaving` has them at once.
- `PointerRing.Chase`: the number of nodes is any positive number; the fixed 2 GiB region and the refusal of smaller ones are not modelled.
- `StrideCover.AllCoveredIff`: is about the region of one thread; the bytes left over when the threads do not divide the memory belong to none.
- `StrideCover.Sweep`: assumes that size, stride and block size add up to less than 2^64, so that the loop variables do not wrap.
- `TraceMerge.KeepsEarliest`: `std::sort` is any reordering sorted by timestamp.
- The copy to a scratch buffer (`copy_to_dst`) and the allocation calls, apart from the rounding of sizes.
- The disabled `else` link branches, the RNIC-side wait of `test2-rdma-fin.c` (it changes no modelled field), `test2.c`, `test4.c` and `test4-nowait.c`.
- Argument parsing (only the ranges it guarantees are used), NUMA, MSR and mmap calls, JSON and CSV output, Python plots and shell scripts.
- Vector instructions, cache flushes, time-stamp counters, bandwidth figures and progress printing; the load threads of the pointer chase.
- Zipfian sampling, which rests on library functions.
