/**
 The chunk-striped block store of `test2-rdma3.c`: sizing, layout, population and
 verification.
 */
module ChunkStripe {
  import opened Wrappers
  import opened Word64
  import opened BlockBytes
  import HugePages

  const MAGIC: nat := 0x4d45_4d5f_4348_4b31
  const TAG_BYTES: nat := 32

  datatype Cfg = Cfg(requests: nat, reqPerBlocks: nat, chunkSlots: nat, blockBytes: nat)

  /** What `parse_args` guarantees: 32-bit positive counts, and room for the tag and
      one more byte in a block. */
  predicate Parsed(c: Cfg) {
    && 1 <= c.requests < 0x1_0000_0000
    && 1 <= c.reqPerBlocks < 0x1_0000_0000
    && 1 <= c.chunkSlots < 0x1_0000_0000
    && TAG_BYTES + 1 <= c.blockBytes < 0x1_0000_0000
  }

  // ----- Sizing in 64-bit arithmetic --------------------------------------------

  datatype Sizes = Sizes(chunksPerBlock: nat, chunkBytes: nat, storeBytes: nat)

  /** The sizing at the start of `main`; `None` is the overflow exit. */
  function SizeCheck(c: Cfg): Option<Sizes>
    requires c.chunkSlots > 0
  {
    var chunksPerBlock := Add64(c.requests, c.chunkSlots - 1) / c.chunkSlots;
    var chunkCount := Mul64(c.reqPerBlocks, chunksPerBlock);
    match CheckedMul(c.chunkSlots, c.blockBytes)
    case None => None
    case Some(chunkBytes) =>
      match CheckedMul(chunkCount, chunkBytes)
      case None => None
      case Some(storeBytes) => Some(Sizes(chunksPerBlock, chunkBytes, storeBytes))
  }

  /** Chunks needed for one block of every request. */
  function ChunksPerBlock(c: Cfg): nat
    requires c.chunkSlots > 0
  {
    (c.requests + c.chunkSlots - 1) / c.chunkSlots
  }

  /** Slots in the whole store. */
  function SlotCount(c: Cfg): nat
    requires c.chunkSlots > 0
  {
    c.reqPerBlocks * ChunksPerBlock(c) * c.chunkSlots
  }

  /** The store is sized for exactly its slots, and the configuration is refused
      exactly when that size does not fit in 64 bits; neither the unchecked product
      in between nor the size of one chunk ever wraps. */
  lemma SizeCheckExact(c: Cfg)
    requires Parsed(c)
    ensures c.reqPerBlocks * ChunksPerBlock(c) < WORD && c.chunkSlots * c.blockBytes < WORD
    ensures SizeCheck(c) ==
              if SlotCount(c) * c.blockBytes < WORD
              then Some(Sizes(ChunksPerBlock(c), c.chunkSlots * c.blockBytes, SlotCount(c) * c.blockBytes))
              else None
  {
    var k := ChunksPerBlock(c);
    CeilDiv(c.requests, c.chunkSlots);
    ProductBound(c.reqPerBlocks, k);
    ProductBound(c.chunkSlots, c.blockBytes);
    Add64Small(c.requests, c.chunkSlots - 1);
    Mul64Small(c.reqPerBlocks, k);
    CheckedMulExact(c.chunkSlots, c.blockBytes);
    CheckedMulExact(c.reqPerBlocks * k, c.chunkSlots * c.blockBytes);
    Assoc(c.reqPerBlocks * k, c.chunkSlots, c.blockBytes);
    hide Mul64;
    hide Add64;
    hide CheckedMul;
  }

  /** For example: three requests of two blocks, two to a chunk, in eight slots of which
      two are padding. */
  lemma SmallConfiguration()
    ensures var c := Cfg(3, 2, 2, 64);
            Parsed(c) && SlotCount(c) == 8 && SizeCheck(c) == Some(Sizes(2, 128, 512))
  {
    var c := Cfg(3, 2, 2, 64);
    assert ChunksPerBlock(c) == 2;
    SizeCheckExact(c);
  }

  /** The store that `test2-rdma3.c` allocates holds all the bytes the sizing asks for if
      and only if they are at most 2^64 - 2^21; the sizing accepts more than that. */
  lemma AllocationCovers(c: Cfg, sizes: Sizes)
    requires Parsed(c) && SizeCheck(c) == Some(sizes)
    ensures HugePages.RoundUp(sizes.storeBytes) >= sizes.storeBytes <==> sizes.storeBytes <= WORD - HugePages.PAGE
  {
    SizeCheckExact(c);
    hide SizeCheck;
    HugePages.RoundUpCovers(sizes.storeBytes);
  }

  /** An accepted configuration whose allocation has length zero. */
  lemma AllocationWraps()
    ensures var c := Cfg(6700417, 641, 6700417, 0xffff_ffff);
            && Parsed(c) && SizeCheck(c).Some? && SizeCheck(c).value.storeBytes == WORD - 1
            && HugePages.RoundUp(WORD - 1) == 0
  {
    var c := Cfg(6700417, 641, 6700417, 0xffff_ffff);
    assert ChunksPerBlock(c) == 1;
    SizeCheckExact(c);
    HugePages.RoundUpCovers(WORD - 1);
  }

  // ----- Layout -------------------------------------------------------------------

  /** The slot that holds block `blk` of request `req`. */
  function SlotOf(c: Cfg, req: nat, blk: nat): nat
    requires c.chunkSlots > 0
  {
    blk * (ChunksPerBlock(c) * c.chunkSlots) + req
  }

  /** The chunk, among those of one block, and the slot in it, of a request. */
  function GroupOf(c: Cfg, req: nat): nat
    requires c.chunkSlots > 0
  {
    req / c.chunkSlots
  }

  function IndexOf(c: Cfg, req: nat): nat
    requires c.chunkSlots > 0
  {
    req % c.chunkSlots
  }

  /** The offset `block_ptr` adds to the store, in 64-bit arithmetic. */
  function BlockPtr(c: Cfg, chunksPerBlock: nat, req: nat, blk: nat): nat
    requires c.chunkSlots > 0
  {
    var chunk := Add64(Mul64(blk, chunksPerBlock), GroupOf(c, req));
    var slot := IndexOf(c, req);
    Add64(Mul64(Mul64(chunk, c.chunkSlots), c.blockBytes), Mul64(slot, c.blockBytes))
  }

  lemma SlotInStore(c: Cfg, req: nat, blk: nat)
    requires Parsed(c) && req < c.requests && blk < c.reqPerBlocks
    ensures SlotOf(c, req, blk) < SlotCount(c)
  {
    CeilDiv(c.requests, c.chunkSlots);
    var w := ChunksPerBlock(c) * c.chunkSlots;
    MulMono(blk + 1, c.reqPerBlocks, w);
    Succ(blk, w);
    Assoc(c.reqPerBlocks, ChunksPerBlock(c), c.chunkSlots);
  }

  /** Different blocks have different slots. */
  lemma SlotsDistinct(c: Cfg, req: nat, blk: nat, req': nat, blk': nat)
    requires Parsed(c) && req < c.requests && req' < c.requests
    requires SlotOf(c, req, blk) == SlotOf(c, req', blk')
    ensures req == req' && blk == blk'
  {
    CeilDiv(c.requests, c.chunkSlots);
    var w := ChunksPerBlock(c) * c.chunkSlots;
    Succ(blk, w);
    Succ(blk', w);
    MulCancel(blk, blk' + 1, w);
    MulCancel(blk', blk + 1, w);
  }

  /** The byte ranges of different blocks do not overlap. */
  lemma BlocksDisjoint(c: Cfg, req: nat, blk: nat, req': nat, blk': nat)
    requires Parsed(c) && req < c.requests && req' < c.requests && (req != req' || blk != blk')
    ensures var o, o' := SlotOf(c, req, blk) * c.blockBytes, SlotOf(c, req', blk') * c.blockBytes;
            o + c.blockBytes <= o' || o' + c.blockBytes <= o
  {
    var p, q := SlotOf(c, req, blk), SlotOf(c, req', blk');
    if p == q { SlotsDistinct(c, req, blk, req', blk'); }
    AtBefore(p, q, c.blockBytes);
    AtBefore(q, p, c.blockBytes);
    hide SlotOf;
  }

  /** For an accepted configuration no step of `block_ptr` wraps: it yields the start
      of the block's slot, and the whole slot lies inside the store. */
  lemma BlockPtrExact(c: Cfg, req: nat, blk: nat)
    requires Parsed(c) && SizeCheck(c).Some? && req < c.requests && blk < c.reqPerBlocks
    ensures BlockPtr(c, SizeCheck(c).value.chunksPerBlock, req, blk) == SlotOf(c, req, blk) * c.blockBytes
    ensures SlotOf(c, req, blk) * c.blockBytes + c.blockBytes <= SizeCheck(c).value.storeBytes < WORD
  {
    var k, s, b := ChunksPerBlock(c), c.chunkSlots, c.blockBytes;
    var p := SlotOf(c, req, blk);
    hide SizeCheck;
    hide ChunksPerBlock;
    hide SlotCount;
    hide SlotOf;
    hide GroupOf;
    hide IndexOf;
    hide Mul64;
    hide Add64;
    SizeCheckExact(c);
    SlotInStore(c, req, blk);
    SomeChunk(c);
    MulMono(p + 1, SlotCount(c), b);
    Succ(p, b);
    SlotByChunk(c, req, blk);
    PtrSteps(k, s, b, blk, GroupOf(c, req), IndexOf(c, req), p);
  }

  lemma SomeChunk(c: Cfg)
    requires Parsed(c)
    ensures ChunksPerBlock(c) > 0
  {
    CeilDiv(c.requests, c.chunkSlots);
  }

  lemma SlotByChunk(c: Cfg, req: nat, blk: nat)
    requires Parsed(c)
    ensures (blk * ChunksPerBlock(c) + GroupOf(c, req)) * c.chunkSlots + IndexOf(c, req) == SlotOf(c, req, blk)
  {
    var k, s := ChunksPerBlock(c), c.chunkSlots;
    Divides(req, s);
    Distribute(blk * k, req / s, s);
    Assoc(blk, k, s);
  }

  lemma PtrSteps(k: nat, s: nat, b: nat, blk: nat, group: nat, slot: nat, p: nat)
    requires k > 0 && s > 0 && b > 0 && (blk * k + group) * s + slot == p && p * b < WORD
    ensures Add64(Mul64(Mul64(Add64(Mul64(blk, k), group), s), b), Mul64(slot, b)) == p * b
  {
    var chunk := blk * k + group;
    Distribute(chunk * s, slot, b);
    Shrink(chunk * s, b);
    Shrink(chunk, s);
    Mul64Small(blk, k);
    Add64Small(blk * k, group);
    Mul64Small(chunk, s);
    Mul64Small(chunk * s, b);
    Mul64Small(slot, b);
    Add64Small(chunk * s * b, slot * b);
    hide Mul64;
    hide Add64;
  }

  // ----- Tags ---------------------------------------------------------------------

  function Words(req: nat, blk: nat): (r: seq<nat>)
    ensures |r| == 4
  {
    [MAGIC, req, blk, FillFor(req, blk)]
  }

  /** `verify_block` on the bytes of one slot. */
  predicate VerifyBlock(src: seq<byte>, req: nat, blk: nat)
    requires |src| > TAG_BYTES
  {
    && WordAt(src, 0) == MAGIC
    && WordAt(src, 1) == req
    && WordAt(src, 2) == blk
    && WordAt(src, 3) == FillFor(req, blk)
    && src[|src| - 1] == FillFor(req, blk)
  }

  /** The tag and the last byte are those `fill_block` writes. */
  predicate Intact(src: seq<byte>, req: nat, blk: nat) {
    && |src| > TAG_BYTES
    && src[..TAG_BYTES] == Encode(Words(req, blk))
    && src[|src| - 1] == FillFor(req, blk)
  }

  /** A block passes exactly when its tag, byte for byte, and its last byte are right. */
  lemma VerifyIff(src: seq<byte>, req: nat, blk: nat)
    requires |src| > TAG_BYTES && req < WORD && blk < WORD
    ensures VerifyBlock(src, req, blk) <==> Intact(src, req, blk)
  {
    hide FillFor;
    hide WordAt;
    hide Encode;
    var words := Words(req, blk);
    TagDetermined(words, src);
    assert words[0] == MAGIC && words[1] == req && words[2] == blk && words[3] == FillFor(req, blk);
  }

  /** A filled block verifies for its own request and block number and no other. */
  lemma VerifyFilled(size: nat, req: nat, blk: nat, req': nat, blk': nat)
    requires size > TAG_BYTES && req < WORD && blk < WORD
    ensures VerifyBlock(Image(Words(req, blk), FillFor(req, blk), size), req', blk')
            <==> req == req' && blk == blk'
  {
    hide FillFor;
    hide WordAt;
    var words := Words(req, blk);
    var rest := Repeat(FillFor(req, blk), size - TAG_BYTES);
    TagRoundTrip(words, rest, 0);
    TagRoundTrip(words, rest, 1);
    TagRoundTrip(words, rest, 2);
    TagRoundTrip(words, rest, 3);
  }

  /** A zeroed slot verifies for nothing. */
  lemma VerifyZero(size: nat, req: nat, blk: nat)
    requires size > TAG_BYTES
    ensures !VerifyBlock(Repeat(0, size), req, blk)
  {
    assert Repeat(0, size)[0..8] == Repeat(0, 8);
    ZeroWord(8);
  }

  // ----- Population ---------------------------------------------------------------

  /** Slots per block number. */
  function Row(c: Cfg): nat
    requires Parsed(c)
  {
    At(ChunksPerBlock(c), c.chunkSlots)
  }

  lemma RowBound(c: Cfg)
    requires Parsed(c)
    ensures c.requests <= Row(c) < c.requests + c.chunkSlots
  {
    CeilDiv(c.requests, c.chunkSlots);
    Divides(c.requests + c.chunkSlots - 1, c.chunkSlots);
  }

  /** What belongs in the slot of a request, which may be one too many. */
  function Block(c: Cfg, req: nat, blk: nat): (r: seq<byte>)
    requires Parsed(c)
    ensures |r| == c.blockBytes
  {
    if req < c.requests then Image(Words(req, blk), FillFor(req, blk), c.blockBytes)
    else Repeat(0, c.blockBytes)
  }

  /** What belongs in slot `q`: row by row, the requests in order. */
  function Content(c: Cfg, q: nat): seq<byte>
    requires Parsed(c)
  {
    if Row(c) == 0 then [] else Block(c, q % Row(c), q / Row(c))
  }

  /** Slots `[lo, hi)` hold what belongs there. */
  ghost predicate Populated(c: Cfg, bytes: seq<byte>, lo: nat, hi: nat)
    requires Parsed(c)
  {
    forall q :: lo <= q < hi ==> Slot(bytes, c.blockBytes, q) == Content(c, q)
  }

  ghost predicate Cleared(bytes: seq<byte>, size: nat, lo: nat, hi: nat) {
    forall q :: lo <= q < hi ==> Slot(bytes, size, q) == Repeat(0, size)
  }

  lemma ContentAt(c: Cfg, blk: nat, req: nat, q: nat)
    requires Parsed(c) && req < Row(c) && q == At(blk, Row(c)) + req
    ensures Content(c, q) == Block(c, req, blk)
  {
    DivModUnique(q, Row(c), blk, req);
    hide Row;
    hide Block;
  }

  /** Slot `slot` of chunk `group` of block `blk`. */
  lemma SlotCoordinates(c: Cfg, blk: nat, group: nat, slot: nat)
    requires Parsed(c) && group < ChunksPerBlock(c) && slot < c.chunkSlots
    ensures var req := At(group, c.chunkSlots) + slot;
            && req < Row(c)
            && At(At(blk, ChunksPerBlock(c)) + group, c.chunkSlots) + slot == At(blk, Row(c)) + req
  {
    var k, s := ChunksPerBlock(c), c.chunkSlots;
    AtBefore(group, k, s);
    AtSum(At(blk, k), group, s);
    AtAt(blk, k, s);
  }

  /** A slot inside a cleared stretch is zero. */
  lemma ClearedSlot(bytes: seq<byte>, off: nat, n: nat, size: nat, q: nat)
    requires off + n <= |bytes| && bytes[off..off + n] == Repeat(0, n)
    requires off <= At(q, size) && At(q, size) + size <= off + n
    ensures Slot(bytes, size, q) == Repeat(0, size)
  {
    hide At;
    var o := At(q, size);
    forall i | o <= i < o + size ensures bytes[i] == 0 {
      assert bytes[off..off + n][i - off] == 0;
    }
    assert Slot(bytes, size, q) == bytes[o..o + size];
  }

  method ClearChunk(store: array<byte>, ghost first: nat, ghost slots: nat, ghost size: nat,
                    chunk: nat, chunkBytes: nat)
    requires chunk == At(first, size) && chunkBytes == At(slots, size) && chunk + chunkBytes <= store.Length
    modifies store
    ensures Cleared(store[..], size, first, first + slots)
    ensures SameSlots(old(store[..]), store[..], size, first, first + slots)
  {
    hide At;
    hide Slot;
    hide SameOutside;
    ghost var before := store[..];
    Memset(store, chunk, 0, chunkBytes);
    ghost var bytes := store[..];
    assert bytes[chunk..chunk + chunkBytes] == Repeat(0, chunkBytes);
    forall q | first <= q < first + slots ensures Slot(bytes, size, q) == Repeat(0, size) {
      SlotInChunk(first, slots, size, q);
      ClearedSlot(bytes, chunk, chunkBytes, size, q);
    }
    forall q: nat | !(first <= q < first + slots) ensures Slot(bytes, size, q) == Slot(before, size, q) {
      SlotOutsideChunk(first, slots, size, q);
      SlotUntouched(before, bytes, chunk, chunkBytes, size, q);
    }
  }

  /** One chunk: clear it, then fill the slots that have a request. */
  method PopulateChunk(c: Cfg, store: array<byte>, chunkId: nat, blk: nat, group: nat,
                       chunkBytes: nat, ghost first: nat)
    requires Parsed(c) && group < ChunksPerBlock(c) && chunkId == At(blk, ChunksPerBlock(c)) + group
    requires first == At(chunkId, c.chunkSlots) && chunkBytes == At(c.chunkSlots, c.blockBytes)
    requires At(first + c.chunkSlots, c.blockBytes) <= store.Length < WORD
    modifies store
    ensures Populated(c, store[..], first, first + c.chunkSlots)
    ensures SameSlots(old(store[..]), store[..], c.blockBytes, first, first + c.chunkSlots)
  {
    hide *;
    var size, slots := c.blockBytes, c.chunkSlots;
    var chunk := Mul64(chunkId, chunkBytes);
    ChunkStart(c, chunkId, chunkBytes, first, store.Length);
    ghost var orig := store[..];
    ClearChunk(store, first, slots, size, chunk, chunkBytes);
    ChunkCleared(c, orig, store[..], first);
    var slot := 0;
    while slot < slots
      invariant slot <= slots
      invariant ChunkProgress(c, orig, store[..], first, slot)
    {
      ghost var before := store[..];
      NextSlotClear(c, orig, before, first, slot);
      FillSlot(c, store, chunkId, blk, group, slot, first, chunk);
      ChunkAdvances(c, orig, before, store[..], first, slot);
      slot := slot + 1;
    }
    ChunkDone(c, orig, store[..], first);
  }

  /** A cleared chunk whose first `slot` slots have been filled. */
  ghost predicate ChunkProgress(c: Cfg, orig: seq<byte>, now: seq<byte>, first: nat, slot: nat)
    requires Parsed(c) && slot <= c.chunkSlots
  {
    && Populated(c, now, first, first + slot)
    && Cleared(now, c.blockBytes, first + slot, first + c.chunkSlots)
    && SameSlots(orig, now, c.blockBytes, first, first + c.chunkSlots)
  }

  lemma ChunkStart(c: Cfg, chunkId: nat, chunkBytes: nat, first: nat, length: nat)
    requires Parsed(c) && first == At(chunkId, c.chunkSlots) && chunkBytes == At(c.chunkSlots, c.blockBytes)
    requires At(first + c.chunkSlots, c.blockBytes) <= length < WORD
    ensures Mul64(chunkId, chunkBytes) == At(first, c.blockBytes)
    ensures At(first, c.blockBytes) + chunkBytes <= length
  {
    AtSum(first, c.chunkSlots, c.blockBytes);
    AtAt(chunkId, c.chunkSlots, c.blockBytes);
    Mul64Small(chunkId, chunkBytes);
    hide Mul64;
  }

  lemma ChunkCleared(c: Cfg, orig: seq<byte>, now: seq<byte>, first: nat)
    requires Parsed(c) && Cleared(now, c.blockBytes, first, first + c.chunkSlots)
    requires SameSlots(orig, now, c.blockBytes, first, first + c.chunkSlots)
    ensures ChunkProgress(c, orig, now, first, 0)
  {
    hide Slot;
    hide Content;
  }

  lemma NextSlotClear(c: Cfg, orig: seq<byte>, now: seq<byte>, first: nat, slot: nat)
    requires Parsed(c) && slot < c.chunkSlots && ChunkProgress(c, orig, now, first, slot)
    requires At(first + c.chunkSlots, c.blockBytes) <= |now|
    ensures Slot(now, c.blockBytes, first + slot) == Repeat(0, c.blockBytes)
    ensures At(first + slot, c.blockBytes) + c.blockBytes <= |now|
  {
    hide Slot;
    hide Content;
    AtBefore(first + slot, first + c.chunkSlots, c.blockBytes);
    hide At;
  }

  lemma ChunkAdvances(c: Cfg, orig: seq<byte>, before: seq<byte>, after: seq<byte>, first: nat, slot: nat)
    requires Parsed(c) && slot < c.chunkSlots && ChunkProgress(c, orig, before, first, slot)
    requires Slot(after, c.blockBytes, first + slot) == Content(c, first + slot)
    requires SameSlots(before, after, c.blockBytes, first + slot, first + slot + 1)
    ensures ChunkProgress(c, orig, after, first, slot + 1)
  {
    hide Slot;
    hide Content;
  }

  lemma ChunkDone(c: Cfg, orig: seq<byte>, now: seq<byte>, first: nat)
    requires Parsed(c) && ChunkProgress(c, orig, now, first, c.chunkSlots)
    ensures Populated(c, now, first, first + c.chunkSlots)
    ensures SameSlots(orig, now, c.blockBytes, first, first + c.chunkSlots)
  {
  }

  lemma SlotOutsideChunk(first: nat, slots: nat, size: nat, q: nat)
    requires !(first <= q < first + slots)
    ensures At(q, size) + size <= At(first, size) || At(first, size) + At(slots, size) <= At(q, size)
  {
    AtSum(first, slots, size);
    if q < first { AtBefore(q, first, size); } else { MulMono(first + slots, q, size); }
  }

  lemma SlotInChunk(first: nat, slots: nat, size: nat, q: nat)
    requires first <= q < first + slots
    ensures At(first, size) <= At(q, size) && At(q, size) + size <= At(first, size) + At(slots, size)
  {
    AtSum(first, q - first, size);
    AtBefore(q - first, slots, size);
  }

  /** One slot of a cleared chunk. */
  method FillSlot(c: Cfg, store: array<byte>, chunkId: nat, blk: nat, group: nat, slot: nat,
                  ghost first: nat, chunk: nat)
    requires Parsed(c) && group < ChunksPerBlock(c) && chunkId == At(blk, ChunksPerBlock(c)) + group
    requires slot < c.chunkSlots && first == At(chunkId, c.chunkSlots) && chunk == At(first, c.blockBytes)
    requires At(first + slot, c.blockBytes) + c.blockBytes <= store.Length < WORD
    requires Slot(store[..], c.blockBytes, first + slot) == Repeat(0, c.blockBytes)
    modifies store
    ensures Slot(store[..], c.blockBytes, first + slot) == Content(c, first + slot)
    ensures SameSlots(old(store[..]), store[..], c.blockBytes, first + slot, first + slot + 1)
  {
    hide *;
    var req := Add64(Mul64(group, c.chunkSlots), slot);
    ghost var before := store[..];
    SlotRequest(c, blk, group, slot, first);
    if req < c.requests {
      var off := chunk + Mul64(slot, c.blockBytes);
      SlotStart(c, first, slot);
      TagFits(c);
      FillBlock(store, off, c.blockBytes, Words(req, blk), FillFor(req, blk));
      SlotFilled(c, before, store[..], first + slot, off, req, blk);
    } else {
      SlotPadding(c, before, first + slot, req, blk);
    }
  }

  /** The request a slot belongs to, and so what belongs in the slot. */
  lemma SlotRequest(c: Cfg, blk: nat, group: nat, slot: nat, first: nat)
    requires Parsed(c) && group < ChunksPerBlock(c) && slot < c.chunkSlots
    requires first == At(At(blk, ChunksPerBlock(c)) + group, c.chunkSlots)
    ensures Content(c, first + slot) == Block(c, Add64(Mul64(group, c.chunkSlots), slot), blk)
  {
    SlotCoordinates(c, blk, group, slot);
    RowBound(c);
    Mul64Small(group, c.chunkSlots);
    Add64Small(At(group, c.chunkSlots), slot);
    ContentAt(c, blk, At(group, c.chunkSlots) + slot, first + slot);
    hide Mul64;
    hide Add64;
    hide Content;
    hide Block;
    hide Row;
    hide ChunksPerBlock;
  }

  lemma SlotStart(c: Cfg, first: nat, slot: nat)
    requires Parsed(c) && slot < c.chunkSlots
    ensures At(first, c.blockBytes) + Mul64(slot, c.blockBytes) == At(first + slot, c.blockBytes)
  {
    ProductBound(slot, c.blockBytes);
    AtSum(first, slot, c.blockBytes);
    Mul64Small(slot, c.blockBytes);
    hide Mul64;
  }

  lemma TagFits(c: Cfg)
    requires Parsed(c)
    ensures 8 * 4 <= c.blockBytes
  {
  }

  lemma SlotFilled(c: Cfg, before: seq<byte>, after: seq<byte>, p: nat, off: nat, req: nat, blk: nat)
    requires Parsed(c) && req < c.requests && Content(c, p) == Block(c, req, blk)
    requires off == At(p, c.blockBytes) && off + c.blockBytes <= |after|
    requires after[off..off + c.blockBytes] == Image(Words(req, blk), FillFor(req, blk), c.blockBytes)
    requires SameOutside(before, after, off, c.blockBytes)
    ensures Slot(after, c.blockBytes, p) == Content(c, p)
    ensures SameSlots(before, after, c.blockBytes, p, p + 1)
  {
    hide At;
    hide Content;
    hide Image;
    hide Words;
    hide FillFor;
    assert Slot(after, c.blockBytes, p) == after[off..off + c.blockBytes];
    assert |before| == |after|;
    hide Slot;
    hide SameOutside;
    forall q: nat | q != p ensures Slot(after, c.blockBytes, q) == Slot(before, c.blockBytes, q) {
      AtBefore(q, p, c.blockBytes);
      AtBefore(p, q, c.blockBytes);
      SlotUntouched(before, after, off, c.blockBytes, c.blockBytes, q);
    }
  }

  lemma SlotPadding(c: Cfg, bytes: seq<byte>, p: nat, req: nat, blk: nat)
    requires Parsed(c) && req >= c.requests && Content(c, p) == Block(c, req, blk)
    ensures Content(c, p) == Repeat(0, c.blockBytes)
    ensures SameSlots(bytes, bytes, c.blockBytes, p, p + 1)
  {
    hide Content;
    hide Slot;
  }

  lemma Extend(c: Cfg, before: seq<byte>, after: seq<byte>, mid: nat, hi: nat)
    requires Parsed(c) && mid <= hi
    requires Populated(c, before, 0, mid) && Populated(c, after, mid, hi)
    requires SameSlots(before, after, c.blockBytes, mid, hi)
    ensures Populated(c, after, 0, hi)
  {
    hide Slot;
    hide Content;
  }

  /** A chunk number below the chunk count leaves room for its slots. */
  lemma ChunkInStore(c: Cfg, blk: nat, group: nat)
    requires Parsed(c) && blk < c.reqPerBlocks && group < ChunksPerBlock(c)
    ensures var chunkId := At(blk, ChunksPerBlock(c)) + group;
            && At(chunkId + 1, c.chunkSlots) == At(chunkId, c.chunkSlots) + c.chunkSlots
            && At(At(chunkId, c.chunkSlots) + c.chunkSlots, c.blockBytes) <= SlotCount(c) * c.blockBytes
  {
    var k, s := ChunksPerBlock(c), c.chunkSlots;
    var chunkId := At(blk, k) + group;
    AtNext(chunkId, s);
    AtBefore(blk, c.reqPerBlocks, k);
    MulMono(chunkId + 1, c.reqPerBlocks * k, s);
    MulMono(At(chunkId + 1, s), SlotCount(c), c.blockBytes);
  }

  /** `populate_chunk_stripe`: every slot of the store gets what belongs there. */
  method Populate(c: Cfg, store: array<byte>, sizes: Sizes)
    requires Parsed(c) && SizeCheck(c) == Some(sizes) && sizes.storeBytes <= store.Length < WORD
    modifies store
    ensures Populated(c, store[..], 0, SlotCount(c))
  {
    SizeCheckExact(c);
    assert sizes.chunkBytes == At(c.chunkSlots, c.blockBytes);
    ghost var k, s := ChunksPerBlock(c), c.chunkSlots;
    assert SlotCount(c) == At(At(c.reqPerBlocks, k), s);
    AtNext(0, k);
    AtNext(0, s);
    hide SizeCheck;
    hide ChunksPerBlock;
    hide SlotCount;
    hide At;
    hide Slot;
    hide Content;
    hide SameSlots;
    hide Populated;
    var chunkId := 0;
    var blk := 0;
    assert Populated(c, store[..], 0, 0) by { NothingToPopulate(c, store[..]); }
    while blk < c.reqPerBlocks
      invariant blk <= c.reqPerBlocks
      invariant chunkId == At(blk, k)
      invariant Populated(c, store[..], 0, At(chunkId, s))
    {
      var group := 0;
      while group < sizes.chunksPerBlock
        invariant group <= k
        invariant chunkId == At(blk, k) + group
        invariant Populated(c, store[..], 0, At(chunkId, s))
      {
        ghost var before, first := store[..], At(chunkId, s);
        ChunkInStore(c, blk, group);
        PopulateChunk(c, store, chunkId, blk, group, sizes.chunkBytes, first);
        Extend(c, before, store[..], first, first + s);
        chunkId := chunkId + 1;
        group := group + 1;
      }
      AtNext(blk, k);
      blk := blk + 1;
    }
  }

  lemma NothingToPopulate(c: Cfg, bytes: seq<byte>)
    requires Parsed(c)
    ensures Populated(c, bytes, 0, 0)
  {
  }

  // ----- Reading back ---------------------------------------------------------------

  lemma RowOf(c: Cfg, q: nat)
    requires Parsed(c) && q < SlotCount(c)
    ensures Row(c) > 0 && q % Row(c) < Row(c) && q / Row(c) < c.reqPerBlocks
  {
    RowBound(c);
    Divides(q, Row(c));
    Assoc(c.reqPerBlocks, ChunksPerBlock(c), c.chunkSlots);
    MulCancel(q / Row(c), c.reqPerBlocks, Row(c));
  }

  lemma SlotIffCoordinates(c: Cfg, q: nat, req: nat, blk: nat)
    requires Parsed(c) && req < c.requests && Row(c) > 0
    ensures q == SlotOf(c, req, blk) <==> q % Row(c) == req && q / Row(c) == blk
  {
    var w := Row(c);
    RowBound(c);
    Divides(q, w);
    assert SlotOf(c, req, blk) == blk * w + req;
    if q == SlotOf(c, req, blk) { DivModUnique(q, w, blk, req); }
    hide Row;
    hide SlotOf;
  }

  lemma BlockVerifies(c: Cfg, req': nat, blk': nat, req: nat, blk: nat)
    requires Parsed(c) && req < c.requests && blk' < c.reqPerBlocks
    ensures VerifyBlock(Block(c, req', blk'), req, blk) <==> req' == req && blk' == blk
  {
    if req' < c.requests {
      VerifyFilled(c.blockBytes, req', blk', req, blk);
    } else {
      VerifyZero(c.blockBytes, req, blk);
    }
    hide VerifyBlock;
    hide Image;
    hide Words;
    hide FillFor;
  }

  /** After population a slot passes verification for an in-range request and block
      if and only if it is the slot of that request and block.  In particular the
      padding slots pass for nothing. */
  lemma VerifiesOnlyInPlace(c: Cfg, bytes: seq<byte>, q: nat, req: nat, blk: nat)
    requires Parsed(c) && Populated(c, bytes, 0, SlotCount(c)) && q < SlotCount(c)
    requires req < c.requests && blk < c.reqPerBlocks
    ensures |Slot(bytes, c.blockBytes, q)| == c.blockBytes
    ensures VerifyBlock(Slot(bytes, c.blockBytes, q), req, blk) <==> q == SlotOf(c, req, blk)
  {
    hide VerifyBlock;
    hide Slot;
    hide Row;
    hide SlotOf;
    hide SlotCount;
    hide Block;
    RowOf(c, q);
    SlotIffCoordinates(c, q, req, blk);
    BlockVerifies(c, q % Row(c), q / Row(c), req, blk);
  }

  /** What a reader finds: the block `block_ptr` points at verifies, and its first
      and last byte are those of the block as filled. */
  lemma ReadBack(c: Cfg, bytes: seq<byte>, sizes: Sizes, req: nat, blk: nat)
    requires Parsed(c) && SizeCheck(c) == Some(sizes) && sizes.storeBytes <= |bytes|
    requires Populated(c, bytes, 0, SlotCount(c))
    requires req < c.requests && blk < c.reqPerBlocks
    ensures var off := BlockPtr(c, sizes.chunksPerBlock, req, blk);
            && off + c.blockBytes <= |bytes|
            && bytes[off..off + c.blockBytes] == Image(Words(req, blk), FillFor(req, blk), c.blockBytes)
            && VerifyBlock(bytes[off..off + c.blockBytes], req, blk)
  {
    var q := SlotOf(c, req, blk);
    BlockPtrExact(c, req, blk);
    SlotInStore(c, req, blk);
    VerifiesOnlyInPlace(c, bytes, q, req, blk);
    RowBound(c);
    ContentAt(c, blk, req, q);
    hide SizeCheck;
    hide BlockPtr;
    hide VerifyBlock;
    hide Row;
    hide SlotCount;
    hide SlotOf;
    hide Content;
    hide Words;
    hide Image;
    hide FillFor;
    assert At(q, c.blockBytes) == q * c.blockBytes;
  }
}
