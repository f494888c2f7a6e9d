/**
 A sweep whose readers read the populated store: the step system of the sweep joined
 with the bytes that `populate_chunk_stripe` leaves.
 */
module SweepOverStore {
  import opened Wrappers
  import opened Word64
  import opened Sums
  import opened BlockBytes
  import opened DistinctIds
  import C = ChunkStripe
  import opened SweepModel
  import opened SweepSafety
  import opened SweepTheorems

  /** The bytes at the address `block_ptr` gives, as far as the store reaches. */
  function BlockAt(c: C.Cfg, sizes: C.Sizes, bytes: seq<byte>, req: nat, blk: nat): seq<byte>
    requires C.Parsed(c)
  {
    var off := C.BlockPtr(c, sizes.chunksPerBlock, req, blk);
    if off + c.blockBytes <= |bytes| then bytes[off..off + c.blockBytes] else []
  }

  /** The outcome of the reader's check of one block, which `--verify` turns on. */
  predicate BlockPasses(verify: bool, src: seq<byte>, req: nat, blk: nat) {
    verify ==> |src| > C.TAG_BYTES && C.VerifyBlock(src, req, blk)
  }

  function StoreConfig(c: C.Cfg, sizes: C.Sizes, bytes: seq<byte>, active: nat, verify: bool, service: real): Config
    requires C.Parsed(c)
  {
    Config(active, c.reqPerBlocks, service,
           (req: nat, blk: nat) => BlockPasses(verify, BlockAt(c, sizes, bytes, req, blk), req, blk),
           (req: nat, blk: nat) => EndBytes(BlockAt(c, sizes, bytes, req, blk)))
  }

  // ----- Any store ----------------------------------------------------------------

  /** The bytes of the slot of a block. */
  function SlotBytes(c: C.Cfg, bytes: seq<byte>, req: nat, blk: nat): seq<byte>
    requires C.Parsed(c)
  {
    Slot(bytes, c.blockBytes, C.SlotOf(c, req, blk))
  }

  /** The blocks of a request that are not as they should have been filled. */
  function Damaged(c: C.Cfg, bytes: seq<byte>, req: nat): set<nat>
    requires C.Parsed(c)
  {
    set blk: nat | blk < c.reqPerBlocks && !C.Intact(SlotBytes(c, bytes, req, blk), req, blk)
  }

  function DamagedBlocks(c: C.Cfg, bytes: seq<byte>, active: nat): nat
    requires C.Parsed(c)
  {
    SumTo((req: nat) => |Damaged(c, bytes, req)|, active)
  }

  /** The end bytes of the blocks of a request, and of all requests, added up. */
  function EndsOf(c: C.Cfg, bytes: seq<byte>, req: nat): nat
    requires C.Parsed(c)
  {
    SumTo((blk: nat) => EndBytes(SlotBytes(c, bytes, req, blk)), c.reqPerBlocks)
  }

  function EndSum(c: C.Cfg, bytes: seq<byte>, active: nat): nat
    requires C.Parsed(c)
  {
    SumTo((req: nat) => EndsOf(c, bytes, req), active)
  }

  /** What a reader finds at the computed address. */
  lemma BlockReads(c: C.Cfg, sizes: C.Sizes, bytes: seq<byte>, verify: bool, req: nat, blk: nat)
    requires C.Parsed(c) && C.SizeCheck(c) == Some(sizes) && sizes.storeBytes <= |bytes|
    requires req < c.requests && blk < c.reqPerBlocks
    ensures var src := SlotBytes(c, bytes, req, blk);
            && BlockAt(c, sizes, bytes, req, blk) == src
            && (BlockPasses(verify, src, req, blk) <==> verify ==> C.Intact(src, req, blk))
  {
    hide C.SizeCheck;
    hide C.VerifyBlock;
    hide C.Intact;
    hide C.BlockPtr;
    hide C.SlotOf;
    C.BlockPtrExact(c, req, blk);
    C.VerifyIff(BlockAt(c, sizes, bytes, req, blk), req, blk);
    assert At(C.SlotOf(c, req, blk), c.blockBytes) == C.SlotOf(c, req, blk) * c.blockBytes;
  }

  lemma RequestReport(c: C.Cfg, sizes: C.Sizes, bytes: seq<byte>, active: nat, verify: bool, service: real, req: nat)
    requires C.Parsed(c) && C.SizeCheck(c) == Some(sizes) && sizes.storeBytes <= |bytes|
    requires req < c.requests
    ensures var cfg := StoreConfig(c, sizes, bytes, active, verify, service);
            && BlockTotal(cfg, req) == EndsOf(c, bytes, req)
            && Failing(cfg, req, cfg.blocks) == if verify then Damaged(c, bytes, req) else {}
  {
    var cfg := StoreConfig(c, sizes, bytes, active, verify, service);
    var f, g := (b: nat) => cfg.blockSum(req, b), (blk: nat) => EndBytes(SlotBytes(c, bytes, req, blk));
    hide C.SizeCheck;
    hide C.Intact;
    hide SlotBytes;
    hide BlockAt;
    hide BlockPasses;
    hide EndBytes;
    forall b: nat | b < c.reqPerBlocks
      ensures f(b) == g(b)
      ensures cfg.blockOk(req, b) <==> verify ==> C.Intact(SlotBytes(c, bytes, req, b), req, b)
    {
      BlockReads(c, sizes, bytes, verify, req, b);
    }
    SumToSame(f, g, c.reqPerBlocks);
  }

  lemma SumTotal(c: C.Cfg, sizes: C.Sizes, bytes: seq<byte>, active: nat, verify: bool, service: real)
    requires C.Parsed(c) && C.SizeCheck(c) == Some(sizes) && sizes.storeBytes <= |bytes| && active <= c.requests
    ensures TotalSum(StoreConfig(c, sizes, bytes, active, verify, service)) == EndSum(c, bytes, active)
  {
    var cfg := StoreConfig(c, sizes, bytes, active, verify, service);
    var sums := (req: nat) => EndsOf(c, bytes, req);
    hide C.SizeCheck;
    hide BlockTotal;
    hide EndsOf;
    hide Failing;
    hide Damaged;
    forall i: nat | i < active ensures BlockTotal(cfg, i) == sums(i) {
      RequestReport(c, sizes, bytes, active, verify, service, i);
    }
    hide TotalSum;
    TotalSumIs(cfg, sums);
  }

  lemma FailTotal(c: C.Cfg, sizes: C.Sizes, bytes: seq<byte>, active: nat, verify: bool, service: real)
    requires C.Parsed(c) && C.SizeCheck(c) == Some(sizes) && sizes.storeBytes <= |bytes| && active <= c.requests
    ensures TotalFail(StoreConfig(c, sizes, bytes, active, verify, service))
            == if verify then DamagedBlocks(c, bytes, active) else 0
  {
    var cfg := StoreConfig(c, sizes, bytes, active, verify, service);
    var damaged, none := (req: nat) => |Damaged(c, bytes, req)|, (req: nat) => 0;
    hide C.SizeCheck;
    hide BlockTotal;
    hide EndsOf;
    hide Failing;
    hide Damaged;
    var fails := if verify then damaged else none;
    forall i: nat | i < active ensures |Failing(cfg, i, cfg.blocks)| == fails(i) {
      RequestReport(c, sizes, bytes, active, verify, service, i);
    }
    hide TotalFail;
    TotalFailIs(cfg, fails);
    SumToZero(none, active);
  }

  /** There are no more damaged blocks than blocks. */
  lemma {:induction false} DamagedAtMost(c: C.Cfg, bytes: seq<byte>, active: nat)
    requires C.Parsed(c)
    ensures DamagedBlocks(c, bytes, active) <= active * c.reqPerBlocks
  {
    hide Damaged;
    if active > 0 {
      DamagedAtMost(c, bytes, active - 1);
      RequestDamage(c, bytes, active - 1);
      Succ(active - 1, c.reqPerBlocks);
    }
  }

  lemma RequestDamage(c: C.Cfg, bytes: seq<byte>, req: nat)
    requires C.Parsed(c)
    ensures |Damaged(c, bytes, req)| <= c.reqPerBlocks
  {
    hide SlotBytes;
    hide C.Intact;
    Subset(Damaged(c, bytes, req), Below(c.reqPerBlocks));
  }

  /** Over any store, in every interleaving, a finished sweep reports the blocks of the
      active requests, exactly the damaged ones among them as failures if it verifies, and
      their end bytes, added up modulo 2^64. */
  lemma AnySweep(c: C.Cfg, sizes: C.Sizes, bytes: seq<byte>, active: nat, verify: bool, service: real,
                 ex: seq<State>, acts: seq<Action>, k: nat)
    requires C.Parsed(c) && C.SizeCheck(c) == Some(sizes) && sizes.storeBytes <= |bytes| && active <= c.requests
    requires Execution(StoreConfig(c, sizes, bytes, active, verify, service), ex, acts)
    requires k < |ex| && ex[k].main.Done?
    ensures ex[k].blocksRead == active * c.reqPerBlocks
    ensures ex[k].verifyFail == if verify then DamagedBlocks(c, bytes, active) else 0
    ensures ex[k].checksum == EndSum(c, bytes, active) % WORD
  {
    var cfg := StoreConfig(c, sizes, bytes, active, verify, service);
    hide C.SizeCheck;
    hide Execution;
    hide TotalFail;
    hide TotalSum;
    hide DamagedBlocks;
    hide EndSum;
    FinalTotals(cfg, ex, acts, k);
    SumTotal(c, sizes, bytes, active, verify, service);
    FailTotal(c, sizes, bytes, active, verify, service);
    DamagedAtMost(c, bytes, active);
    ProductBound(active, c.reqPerBlocks);
    ModSmall(active * c.reqPerBlocks);
    ModSmall(TotalFail(cfg));
  }

  // ----- The populated store --------------------------------------------------------

  lemma ImageEnds(req: nat, blk: nat, size: nat)
    requires size > C.TAG_BYTES
    ensures EndBytes(Image(C.Words(req, blk), FillFor(req, blk), size)) == 0x31 + FillFor(req, blk)
  {
    FirstByte(C.Words(req, blk));
    assert C.MAGIC % 256 == 0x31;
    hide FillFor;
    hide Encode;
  }

  lemma CleanBlock(c: C.Cfg, sizes: C.Sizes, bytes: seq<byte>, req: nat, blk: nat)
    requires C.Parsed(c) && C.SizeCheck(c) == Some(sizes) && sizes.storeBytes <= |bytes|
    requires C.Populated(c, bytes, 0, C.SlotCount(c))
    requires req < c.requests && blk < c.reqPerBlocks
    ensures C.Intact(SlotBytes(c, bytes, req, blk), req, blk)
    ensures EndBytes(SlotBytes(c, bytes, req, blk)) == 0x31 + FillFor(req, blk)
  {
    hide C.VerifyBlock;
    hide C.Intact;
    hide C.BlockPtr;
    hide C.SizeCheck;
    hide C.Populated;
    hide C.SlotCount;
    hide C.Words;
    hide Image;
    hide FillFor;
    hide SlotBytes;
    hide EndBytes;
    C.ReadBack(c, bytes, sizes, req, blk);
    BlockReads(c, sizes, bytes, true, req, blk);
    ImageEnds(req, blk, c.blockBytes);
  }

  lemma CleanRequest(c: C.Cfg, sizes: C.Sizes, bytes: seq<byte>, req: nat)
    requires C.Parsed(c) && C.SizeCheck(c) == Some(sizes) && sizes.storeBytes <= |bytes|
    requires C.Populated(c, bytes, 0, C.SlotCount(c)) && req < c.requests
    ensures Damaged(c, bytes, req) == {} && EndsOf(c, bytes, req) == RequestSum(0x31, req, c.reqPerBlocks)
  {
    var f, g := (blk: nat) => EndBytes(SlotBytes(c, bytes, req, blk)), (b: nat) => 0x31 + FillFor(req, b);
    hide C.SizeCheck;
    hide C.Populated;
    hide C.SlotCount;
    hide C.Intact;
    hide SlotBytes;
    hide EndBytes;
    hide FillFor;
    forall b: nat | b < c.reqPerBlocks ensures C.Intact(SlotBytes(c, bytes, req, b), req, b) && f(b) == g(b) {
      CleanBlock(c, sizes, bytes, req, b);
    }
    SumToSame(f, g, c.reqPerBlocks);
  }

  lemma {:induction false} CleanStore(c: C.Cfg, sizes: C.Sizes, bytes: seq<byte>, active: nat)
    requires C.Parsed(c) && C.SizeCheck(c) == Some(sizes) && sizes.storeBytes <= |bytes|
    requires C.Populated(c, bytes, 0, C.SlotCount(c)) && active <= c.requests
    ensures DamagedBlocks(c, bytes, active) == 0
    ensures EndSum(c, bytes, active) == StoreSum(0x31, active, c.reqPerBlocks)
  {
    hide C.SizeCheck;
    hide C.Populated;
    hide C.SlotCount;
    hide Damaged;
    hide EndsOf;
    hide RequestSum;
    if active > 0 {
      CleanStore(c, sizes, bytes, active - 1);
      CleanRequest(c, sizes, bytes, active - 1);
    }
  }

  /** Every finished sweep over the populated store, with or without verification and
      in every interleaving, reports no failure, exactly the blocks of the active
      requests, and the checksum the layout determines. */
  lemma PopulatedSweep(c: C.Cfg, sizes: C.Sizes, bytes: seq<byte>, active: nat, verify: bool, service: real,
                       ex: seq<State>, acts: seq<Action>, k: nat)
    requires C.Parsed(c) && C.SizeCheck(c) == Some(sizes) && sizes.storeBytes <= |bytes|
    requires C.Populated(c, bytes, 0, C.SlotCount(c)) && active <= c.requests
    requires Execution(StoreConfig(c, sizes, bytes, active, verify, service), ex, acts)
    requires k < |ex| && ex[k].main.Done?
    ensures ex[k].verifyFail == 0
    ensures ex[k].blocksRead == active * c.reqPerBlocks
    ensures ex[k].checksum == StoreSum(0x31, active, c.reqPerBlocks) % WORD
  {
    hide C.SizeCheck;
    hide C.Populated;
    hide C.SlotCount;
    hide Execution;
    hide StoreSum;
    AnySweep(c, sizes, bytes, active, verify, service, ex, acts, k);
    CleanStore(c, sizes, bytes, active);
  }
}
