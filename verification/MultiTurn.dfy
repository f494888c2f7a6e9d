/**
 The multi-turn append test of `test3-mt.c`: every turn appends the same number of
 blocks to every request, then reads everything written so far and verifies it.
 */
module MultiTurn {
  import opened Wrappers
  import opened Word64
  import opened Sums
  import opened BlockBytes
  import opened DistinctIds

  const MAGIC: nat := 0x4d54_5552_4e42_4c4b
  const TAG_BYTES: nat := 40

  datatype Cfg = Cfg(requests: nat, reqPerBlocks: nat, blockBytes: nat, rounds: nat)

  /** What `parse_args` guarantees. */
  predicate Parsed(c: Cfg) {
    && 1 <= c.requests < 0x1_0000_0000
    && 1 <= c.reqPerBlocks < 0x1_0000_0000
    && TAG_BYTES + 1 <= c.blockBytes < 0x1_0000_0000
    && 1 <= c.rounds < 0x1_0000_0000
  }

  // ----- Sizing and layout --------------------------------------------------------

  datatype Sizes = Sizes(chunkBytes: nat, storeBytes: nat)

  /** The sizing at the start of `main`; `None` is the overflow exit. */
  function SizeCheck(c: Cfg): Option<Sizes> {
    match CheckedMul(c.requests, c.blockBytes)
    case None => None
    case Some(chunkBytes) =>
      match CheckedMul(c.rounds, c.reqPerBlocks)
      case None => None
      case Some(totalChunks) =>
        match CheckedMul(totalChunks, chunkBytes)
        case None => None
        case Some(storeBytes) => Some(Sizes(chunkBytes, storeBytes))
  }

  /** Blocks per request after `turns` turns. */
  function Blocks(c: Cfg, turns: nat): nat {
    At(turns, c.reqPerBlocks)
  }

  /** The slot of block `blk` of request `req`: block by block, the requests in order. */
  function SlotOf(c: Cfg, req: nat, blk: nat): nat {
    At(blk, c.requests) + req
  }

  /** The offset `block_ptr` and `const_block_ptr` add to their base pointer. */
  function BlockPtr(c: Cfg, chunkBytes: nat, req: nat, blk: nat): nat {
    Add64(Mul64(blk, chunkBytes), Mul64(req, c.blockBytes))
  }

  /** A configuration is refused exactly when its whole store does not fit in 64 bits. */
  lemma SizeCheckExact(c: Cfg)
    requires Parsed(c)
    ensures SizeCheck(c) ==
              if At(At(Blocks(c, c.rounds), c.requests), c.blockBytes) < WORD
              then Some(Sizes(At(c.requests, c.blockBytes), At(At(Blocks(c, c.rounds), c.requests), c.blockBytes)))
              else None
  {
    ProductBound(c.requests, c.blockBytes);
    ProductBound(c.rounds, c.reqPerBlocks);
    CheckedMulExact(c.requests, c.blockBytes);
    CheckedMulExact(c.rounds, c.reqPerBlocks);
    CheckedMulExact(c.rounds * c.reqPerBlocks, c.requests * c.blockBytes);
    AtAt(c.rounds * c.reqPerBlocks, c.requests, c.blockBytes);
    hide CheckedMul;
  }

  /** For example: four turns that append two blocks to each of three requests. */
  lemma SmallConfiguration()
    ensures var c := Cfg(3, 2, 64, 4);
            Parsed(c) && SizeCheck(c) == Some(Sizes(192, 1536))
  {
    SizeCheckExact(Cfg(3, 2, 64, 4));
  }

  /** For an accepted configuration no step of the address computation wraps, and the
      block lies inside the store. */
  lemma BlockPtrExact(c: Cfg, sizes: Sizes, req: nat, blk: nat)
    requires Parsed(c) && SizeCheck(c) == Some(sizes) && req < c.requests && blk < Blocks(c, c.rounds)
    ensures Mul64(blk, sizes.chunkBytes) == At(At(blk, c.requests), c.blockBytes)
    ensures Mul64(req, c.blockBytes) == At(req, c.blockBytes)
    ensures BlockPtr(c, sizes.chunkBytes, req, blk) == At(SlotOf(c, req, blk), c.blockBytes)
    ensures At(SlotOf(c, req, blk), c.blockBytes) + c.blockBytes <= sizes.storeBytes < WORD
  {
    var r, b := c.requests, c.blockBytes;
    SizeCheckExact(c);
    AtBefore(blk, Blocks(c, c.rounds), r);
    AtBefore(SlotOf(c, req, blk), At(Blocks(c, c.rounds), r), b);
    AtSum(At(blk, r), req, b);
    AtAt(blk, r, b);
    hide SizeCheck;
    hide Blocks;
    assert blk * sizes.chunkBytes == At(At(blk, r), b);
    Mul64Small(blk, sizes.chunkBytes);
    assert req * b == At(req, b);
    Mul64Small(req, b);
    hide At;
    hide Mul64;
  }

  /** Blocks of different requests or numbers do not overlap. */
  lemma BlocksDisjoint(c: Cfg, req: nat, blk: nat, req': nat, blk': nat)
    requires req < c.requests && req' < c.requests && (req != req' || blk != blk')
    ensures var o, o' := At(SlotOf(c, req, blk), c.blockBytes), At(SlotOf(c, req', blk'), c.blockBytes);
            o + c.blockBytes <= o' || o' + c.blockBytes <= o
  {
    var p, q := SlotOf(c, req, blk), SlotOf(c, req', blk');
    AtBefore(blk, blk', c.requests);
    AtBefore(blk', blk, c.requests);
    AtBefore(p, q, c.blockBytes);
    AtBefore(q, p, c.blockBytes);
    hide At;
  }

  // ----- Tags ---------------------------------------------------------------------

  function Words(req: nat, blk: nat, turn: nat): (r: seq<nat>)
    ensures |r| == 5
  {
    [MAGIC, req, blk, turn, FillFor(req, blk)]
  }

  /** The turn in which block `blk` belongs. */
  function TurnOf(c: Cfg, blk: nat): nat
    requires c.reqPerBlocks > 0
  {
    blk / c.reqPerBlocks + 1
  }

  /** `verify_block`. */
  predicate VerifyBlock(c: Cfg, src: seq<byte>, req: nat, blk: nat)
    requires Parsed(c)
  {
    && |src| == c.blockBytes
    && WordAt(src, 0) == MAGIC
    && WordAt(src, 1) == req
    && WordAt(src, 2) == blk
    && WordAt(src, 3) == TurnOf(c, blk)
    && WordAt(src, 4) == FillFor(req, blk)
    && src[c.blockBytes - 1] == FillFor(req, blk)
  }

  /** The block that `write_turn` writes for a request in the turn it belongs to. */
  function Block(c: Cfg, req: nat, blk: nat): (r: seq<byte>)
    requires Parsed(c)
    ensures |r| == c.blockBytes
  {
    Image(Words(req, blk, TurnOf(c, blk)), FillFor(req, blk), c.blockBytes)
  }

  /** The tag and the last byte are those `fill_block` writes. */
  predicate Intact(c: Cfg, src: seq<byte>, req: nat, blk: nat)
    requires Parsed(c)
  {
    && |src| == c.blockBytes
    && src[..TAG_BYTES] == Encode(Words(req, blk, TurnOf(c, blk)))
    && src[c.blockBytes - 1] == FillFor(req, blk)
  }

  /** A block passes exactly when its tag, byte for byte, and its last byte are right. */
  lemma VerifyIff(c: Cfg, src: seq<byte>, req: nat, blk: nat)
    requires Parsed(c) && |src| == c.blockBytes && req < WORD && blk + 1 < WORD
    ensures VerifyBlock(c, src, req, blk) <==> Intact(c, src, req, blk)
  {
    hide FillFor;
    hide WordAt;
    hide Encode;
    TurnSmall(c, blk);
    hide TurnOf;
    var words := Words(req, blk, TurnOf(c, blk));
    TagDetermined(words, src);
    assert words[0] == MAGIC && words[1] == req && words[2] == blk;
    assert words[3] == TurnOf(c, blk) && words[4] == FillFor(req, blk);
  }

  /** A block verifies for its own request and block number and no other. */
  lemma BlockVerifies(c: Cfg, req': nat, blk': nat, req: nat, blk: nat)
    requires Parsed(c) && req' < WORD && blk' + 1 < WORD
    ensures VerifyBlock(c, Block(c, req', blk'), req, blk) <==> req' == req && blk' == blk
  {
    hide FillFor;
    hide WordAt;
    TurnSmall(c, blk');
    hide TurnOf;
    var words := Words(req', blk', TurnOf(c, blk'));
    var rest := Repeat(FillFor(req', blk'), c.blockBytes - TAG_BYTES);
    TagRoundTrip(words, rest, 0);
    TagRoundTrip(words, rest, 1);
    TagRoundTrip(words, rest, 2);
    TagRoundTrip(words, rest, 3);
    TagRoundTrip(words, rest, 4);
  }

  lemma TurnSmall(c: Cfg, blk: nat)
    requires c.reqPerBlocks > 0
    ensures TurnOf(c, blk) <= blk + 1
  {
    QuotientSmall(blk, c.reqPerBlocks);
  }

  /** Blocks of turn `turn` carry its number. */
  lemma TurnOfBlock(c: Cfg, turn: nat, i: nat)
    requires turn >= 1 && i < c.reqPerBlocks
    ensures TurnOf(c, Blocks(c, turn - 1) + i) == turn
  {
    DivModUnique(Blocks(c, turn - 1) + i, c.reqPerBlocks, turn - 1, i);
  }

  // ----- Writing ------------------------------------------------------------------

  /** What belongs in slot `q`. */
  function Content(c: Cfg, q: nat): (r: seq<byte>)
    requires Parsed(c)
    ensures |r| == c.blockBytes
  {
    hide Block;
    Block(c, q % c.requests, q / c.requests)
  }

  /** Slots `[lo, hi)` hold what belongs there. */
  ghost predicate Written(c: Cfg, bytes: seq<byte>, lo: nat, hi: nat)
    requires Parsed(c)
  {
    forall q :: lo <= q < hi ==> Slot(bytes, c.blockBytes, q) == Content(c, q)
  }

  /** At most slots `[lo, hi)` have changed, and nothing before or after them. */
  ghost predicate OnlyIn(before: seq<byte>, after: seq<byte>, size: nat, lo: nat, hi: nat)
    requires lo <= hi
  {
    && At(lo, size) <= At(hi, size)
    && SameOutside(before, after, At(lo, size), At(hi, size) - At(lo, size))
  }

  lemma ContentAt(c: Cfg, req: nat, blk: nat)
    requires Parsed(c) && req < c.requests
    ensures Content(c, SlotOf(c, req, blk)) == Block(c, req, blk)
  {
    DivModUnique(SlotOf(c, req, blk), c.requests, blk, req);
    hide Block;
    hide SlotOf;
  }

  /** Slots outside the changed ones are as before. */
  lemma SlotKept(before: seq<byte>, after: seq<byte>, size: nat, lo: nat, hi: nat, q: nat)
    requires lo <= hi && OnlyIn(before, after, size, lo, hi) && (q < lo || hi <= q)
    ensures Slot(after, size, q) == Slot(before, size, q)
  {
    AtBefore(q, lo, size);
    AtSum(hi, if hi <= q then q - hi else 0, size);
    SlotUntouched(before, after, At(lo, size), At(hi, size) - At(lo, size), size, q);
    hide SameOutside;
    hide Slot;
    hide At;
  }

  /** Earlier slots stay written when later ones change. */
  lemma StaysWritten(c: Cfg, before: seq<byte>, after: seq<byte>, lo: nat, mid: nat, hi: nat)
    requires Parsed(c) && mid <= hi
    requires Written(c, before, lo, mid) && OnlyIn(before, after, c.blockBytes, mid, hi)
    ensures Written(c, after, lo, mid)
  {
    hide OnlyIn;
    hide Slot;
    hide Content;
    forall q | lo <= q < mid ensures Slot(after, c.blockBytes, q) == Content(c, q) {
      SlotKept(before, after, c.blockBytes, mid, hi, q);
    }
  }

  lemma OnlyInGrows(a: seq<byte>, b: seq<byte>, d: seq<byte>, size: nat, lo: nat, q: nat)
    requires lo <= q && OnlyIn(a, b, size, lo, q) && OnlyIn(b, d, size, q, q + 1)
    ensures OnlyIn(a, d, size, lo, q + 1)
  {
    AtNext(q, size);
    hide At;
  }

  /** The first block of a turn; `turn - 1` is computed in 32 bits. */
  function FirstBlock(c: Cfg, turn: nat): nat {
    Mul64((turn + 0xffff_ffff) % 0x1_0000_0000, c.reqPerBlocks)
  }

  /** The offset in the store at which `write_turn` writes its block `i` of a request. */
  function WriteOffset(c: Cfg, chunkBytes: nat, turn: nat, i: nat, req: nat): nat {
    var blk := Add64(FirstBlock(c, turn), i);
    Add64(Mul64(blk, chunkBytes), BlockPtr(c, chunkBytes, req, 0))
  }

  lemma MinusOne(turn: nat)
    requires 1 <= turn < 0x1_0000_0000
    ensures (turn + 0xffff_ffff) % 0x1_0000_0000 == turn - 1
  {
  }

  lemma FirstBlockIs(c: Cfg, turn: nat)
    requires Parsed(c) && 1 <= turn <= c.rounds
    ensures FirstBlock(c, turn) == Blocks(c, turn - 1)
    ensures Blocks(c, turn) == Blocks(c, turn - 1) + c.reqPerBlocks <= Blocks(c, c.rounds)
  {
    MinusOne(turn);
    ProductBound(turn - 1, c.reqPerBlocks);
    Mul64Small(turn - 1, c.reqPerBlocks);
    AtNext(turn - 1, c.reqPerBlocks);
    MulMono(turn, c.rounds, c.reqPerBlocks);
    hide Mul64;
  }

  /** For the turns 1 to `rounds` the offset is that of the block, inside the store. */
  lemma WriteOffsetIs(c: Cfg, sizes: Sizes, turn: nat, i: nat, req: nat)
    requires Parsed(c) && SizeCheck(c) == Some(sizes) && 1 <= turn <= c.rounds
    requires i < c.reqPerBlocks && req < c.requests
    ensures var blk := Blocks(c, turn - 1) + i;
            && Add64(FirstBlock(c, turn), i) == blk && blk < Blocks(c, c.rounds) && TurnOf(c, blk) == turn
            && WriteOffset(c, sizes.chunkBytes, turn, i, req) == At(SlotOf(c, req, blk), c.blockBytes)
    ensures WriteOffset(c, sizes.chunkBytes, turn, i, req) + c.blockBytes <= sizes.storeBytes
  {
    hide At;
    hide Mul64;
    hide Add64;
    hide Blocks;
    hide SizeCheck;
    hide TurnOf;
    hide FirstBlock;
    var blk := Blocks(c, turn - 1) + i;
    FirstBlockIs(c, turn);
    TurnOfBlock(c, turn, i);
    BlockPtrExact(c, sizes, req, blk);
    ReadFits(c, sizes, c.rounds);
    BlocksFit(c, sizes, blk);
    Add64Small(Blocks(c, turn - 1), i);
    AtSum(At(blk, c.requests), req, c.blockBytes);
    FirstRow(sizes.chunkBytes, Mul64(req, c.blockBytes));
    Add64Small(At(At(blk, c.requests), c.blockBytes), At(req, c.blockBytes));
  }

  lemma BlocksFit(c: Cfg, sizes: Sizes, blk: nat)
    requires Parsed(c) && SizeCheck(c) == Some(sizes) && blk < Blocks(c, c.rounds)
    ensures blk < WORD
  {
    ProductBound(c.rounds, c.reqPerBlocks);
    hide SizeCheck;
  }

  /** If there are 2^32 - 1 rounds the counter wraps, and turn 0 writes its first block
      right behind the store. */
  lemma TurnZeroEscapes(c: Cfg, sizes: Sizes)
    requires Parsed(c) && SizeCheck(c) == Some(sizes) && c.rounds == 0xffff_ffff
    ensures WriteOffset(c, sizes.chunkBytes, 0, 0, 0) == sizes.storeBytes
  {
    var r, b := c.requests, c.blockBytes;
    var n := Blocks(c, c.rounds);
    SizeCheckExact(c);
    ProductBound(c.rounds, c.reqPerBlocks);
    Mul64Small(c.rounds, c.reqPerBlocks);
    Add64Small(n, 0);
    AtAt(n, r, b);
    assert n * sizes.chunkBytes == At(At(n, r), b);
    Mul64Small(n, sizes.chunkBytes);
    AtNext(0, b);
    Mul64Small(0, b);
    FirstRow(sizes.chunkBytes, 0);
    Add64Small(sizes.storeBytes, 0);
    hide SizeCheck;
    hide Mul64;
    hide Add64;
    hide At;
  }

  /** One `fill_block` call of `write_turn`. */
  method WriteBlock(c: Cfg, store: array<byte>, off: nat, req: nat, blk: nat, turn: nat, ghost lo: nat)
    requires Parsed(c) && req < c.requests && turn == TurnOf(c, blk)
    requires off == At(SlotOf(c, req, blk), c.blockBytes) && off + c.blockBytes <= store.Length
    requires lo <= SlotOf(c, req, blk) && Written(c, store[..], lo, SlotOf(c, req, blk))
    modifies store
    ensures Written(c, store[..], lo, SlotOf(c, req, blk) + 1)
    ensures OnlyIn(old(store[..]), store[..], c.blockBytes, SlotOf(c, req, blk), SlotOf(c, req, blk) + 1)
  {
    TagFits(c);
    hide *;
    ghost var before := store[..];
    FillBlock(store, off, c.blockBytes, Words(req, blk, turn), FillFor(req, blk));
    BlockWritten(c, before, store[..], lo, req, blk, off);
  }

  lemma TagFits(c: Cfg)
    requires Parsed(c)
    ensures 8 * 5 <= c.blockBytes
  {
  }

  lemma FirstRow(a: nat, b: nat)
    requires b < WORD
    ensures Add64(Mul64(0, a), b) == b
  {
    AtNext(0, a);
    Mul64Small(0, a);
    Add64Small(0, b);
  }

  lemma BlockWritten(c: Cfg, before: seq<byte>, after: seq<byte>, lo: nat, req: nat, blk: nat, off: nat)
    requires Parsed(c) && req < c.requests
    requires off == At(SlotOf(c, req, blk), c.blockBytes) && off + c.blockBytes <= |after|
    requires after[off..off + c.blockBytes] == Image(Words(req, blk, TurnOf(c, blk)), FillFor(req, blk), c.blockBytes)
    requires SameOutside(before, after, off, c.blockBytes)
    requires lo <= SlotOf(c, req, blk) && Written(c, before, lo, SlotOf(c, req, blk))
    ensures Written(c, after, lo, SlotOf(c, req, blk) + 1)
    ensures OnlyIn(before, after, c.blockBytes, SlotOf(c, req, blk), SlotOf(c, req, blk) + 1)
  {
    hide SlotOf;
    hide At;
    hide Content;
    hide FillFor;
    hide TurnOf;
    hide SameOutside;
    hide Image;
    hide Words;
    var q := SlotOf(c, req, blk);
    AtNext(q, c.blockBytes);
    StaysWritten(c, before, after, lo, q, q + 1);
    ContentAt(c, req, blk);
  }

  /** What `write_turn` leaves: every block of the turn is written, and no byte outside the
      turn's part of the store has changed. */
  ghost predicate TurnWritten(c: Cfg, before: seq<byte>, after: seq<byte>, turn: nat)
    requires Parsed(c) && turn >= 1
  {
    var lo, hi := At(Blocks(c, turn - 1), c.requests), At(Blocks(c, turn), c.requests);
    lo <= hi && Written(c, after, lo, hi) && OnlyIn(before, after, c.blockBytes, lo, hi)
  }

  /** `write_turn`, for the turns that the loop in `main` reaches.  It stops in front of
      a write that does not fit in the store: that is the first write of turn 0. */
  method WriteTurn(c: Cfg, store: array<byte>, sizes: Sizes, turn: nat) returns (inside: bool)
    requires Parsed(c) && SizeCheck(c) == Some(sizes) && sizes.storeBytes <= store.Length
    requires turn <= c.rounds && (turn == 0 ==> c.rounds == 0xffff_ffff)
    modifies store
    ensures inside <==> turn != 0
    ensures inside ==> TurnWritten(c, old(store[..]), store[..], turn)
    ensures !inside ==> store[..] == old(store[..])
  {
    hide *;
    ghost var orig := store[..];
    ghost var first := if turn == 0 then 0 else Blocks(c, turn - 1);
    ghost var lo := At(first, c.requests);
    TurnBegins(c, sizes, orig, turn, first);
    var i := 0;
    while i < c.reqPerBlocks
      invariant i <= c.reqPerBlocks
      invariant turn == 0 ==> i == 0 && store[..] == orig
      invariant turn > 0 ==> Progress(c, orig, store[..], lo, At(first + i, c.requests))
    {
      var blk := Add64(FirstBlock(c, turn), i);
      RowBegins(c, first + i);
      var req := 0;
      while req < c.requests
        invariant req <= c.requests
        invariant turn == 0 ==> i == 0 && req == 0 && store[..] == orig
        invariant turn > 0 ==> Progress(c, orig, store[..], lo, SlotOf(c, req, first + i))
      {
        var off := WriteOffset(c, sizes.chunkBytes, turn, i, req);
        WriteFits(c, sizes, turn, i, req, first);
        if off + c.blockBytes > sizes.storeBytes {
          return false;
        }
        ghost var before := store[..];
        ProgressHas(c, orig, before, lo, SlotOf(c, req, first + i));
        WriteBlock(c, store, off, req, blk, turn, lo);
        ProgressGrows(c, orig, before, store[..], lo, req, first + i);
        req := req + 1;
      }
      RowEnds(c, first + i);
      i := i + 1;
    }
    inside := true;
    TurnEnds(c, orig, store[..], turn, first);
  }

  /** Slots from `lo` on have been written, and nothing else. */
  ghost predicate Progress(c: Cfg, orig: seq<byte>, now: seq<byte>, lo: nat, q: nat)
    requires Parsed(c)
  {
    lo <= q && Written(c, now, lo, q) && OnlyIn(orig, now, c.blockBytes, lo, q)
  }

  lemma TurnBegins(c: Cfg, sizes: Sizes, orig: seq<byte>, turn: nat, first: nat)
    requires Parsed(c) && SizeCheck(c) == Some(sizes)
    ensures Progress(c, orig, orig, At(first, c.requests), At(first + 0, c.requests))
    ensures c.requests > 0 && c.reqPerBlocks > 0
  {
    hide SizeCheck;
    hide At;
    hide Slot;
    hide Content;
  }

  lemma RowBegins(c: Cfg, blk: nat)
    ensures SlotOf(c, 0, blk) == At(blk, c.requests)
  {
  }

  lemma RowEnds(c: Cfg, blk: nat)
    ensures SlotOf(c, c.requests, blk) == At(blk + 1, c.requests)
  {
    AtNext(blk, c.requests);
  }

  /** Whether a write fits, and where it goes if it does. */
  lemma WriteFits(c: Cfg, sizes: Sizes, turn: nat, i: nat, req: nat, first: nat)
    requires Parsed(c) && SizeCheck(c) == Some(sizes) && i < c.reqPerBlocks && req < c.requests
    requires turn <= c.rounds && (turn == 0 ==> c.rounds == 0xffff_ffff && i == 0 && req == 0)
    requires turn > 0 ==> first == Blocks(c, turn - 1)
    ensures var off := WriteOffset(c, sizes.chunkBytes, turn, i, req);
            && (off + c.blockBytes > sizes.storeBytes <==> turn == 0)
            && (turn > 0 ==> off == At(SlotOf(c, req, first + i), c.blockBytes)
                             && Add64(FirstBlock(c, turn), i) == first + i && TurnOf(c, first + i) == turn)
  {
    if turn == 0 { TurnZeroEscapes(c, sizes); } else { WriteOffsetIs(c, sizes, turn, i, req); }
    hide SizeCheck;
    hide WriteOffset;
    hide FirstBlock;
    hide TurnOf;
    hide Add64;
    hide At;
  }

  lemma ProgressHas(c: Cfg, orig: seq<byte>, now: seq<byte>, lo: nat, q: nat)
    requires Parsed(c) && Progress(c, orig, now, lo, q)
    ensures lo <= q && Written(c, now, lo, q)
  {
  }

  lemma ProgressGrows(c: Cfg, orig: seq<byte>, before: seq<byte>, after: seq<byte>, lo: nat, req: nat, blk: nat)
    requires Parsed(c) && Progress(c, orig, before, lo, SlotOf(c, req, blk))
    requires Written(c, after, lo, SlotOf(c, req, blk) + 1)
    requires OnlyIn(before, after, c.blockBytes, SlotOf(c, req, blk), SlotOf(c, req, blk) + 1)
    ensures Progress(c, orig, after, lo, SlotOf(c, req + 1, blk))
  {
    hide Written;
    hide OnlyIn;
    hide At;
    OnlyInGrows(orig, before, after, c.blockBytes, lo, SlotOf(c, req, blk));
  }

  lemma TurnEnds(c: Cfg, orig: seq<byte>, now: seq<byte>, turn: nat, first: nat)
    requires Parsed(c) && turn <= c.rounds
    requires turn > 0 ==> first == Blocks(c, turn - 1)
                          && Progress(c, orig, now, At(first, c.requests), At(first + c.reqPerBlocks, c.requests))
    ensures turn > 0 ==> TurnWritten(c, orig, now, turn)
  {
    hide Written;
    hide OnlyIn;
    if turn > 0 { FirstBlockIs(c, turn); }
    hide Blocks;
    hide At;
  }

  // ----- Reading back -------------------------------------------------------------

  /** The blocks of a request, below `n`, that are not as they should have been written. */
  function Damaged(c: Cfg, bytes: seq<byte>, req: nat, n: nat): set<nat>
    requires Parsed(c)
  {
    set blk: nat | blk < n && !Intact(c, Slot(bytes, c.blockBytes, SlotOf(c, req, blk)), req, blk)
  }

  /** The end bytes of the first `n` blocks of a request, added up. */
  function EndsOf(c: Cfg, bytes: seq<byte>, req: nat, n: nat): nat {
    SumTo((blk: nat) => EndBytes(Slot(bytes, c.blockBytes, SlotOf(c, req, blk))), n)
  }

  /** One more block. */
  lemma OneMoreBlock(c: Cfg, bytes: seq<byte>, req: nat, n: nat)
    requires Parsed(c)
    ensures var src := Slot(bytes, c.blockBytes, SlotOf(c, req, n));
            && |Damaged(c, bytes, req, n + 1)|
               == |Damaged(c, bytes, req, n)| + (if Intact(c, src, req, n) then 0 else 1)
            && EndsOf(c, bytes, req, n + 1) == EndsOf(c, bytes, req, n) + EndBytes(src)
  {
    hide Intact;
    hide Slot;
    hide SlotOf;
    hide EndBytes;
    var before, after := Damaged(c, bytes, req, n), Damaged(c, bytes, req, n + 1);
    if Intact(c, Slot(bytes, c.blockBytes, SlotOf(c, req, n)), req, n) {
      assert after == before;
    } else {
      assert after == before + {n};
    }
  }

  lemma NoBlocks(c: Cfg, bytes: seq<byte>, req: nat)
    requires Parsed(c)
    ensures Damaged(c, bytes, req, 0) == {} && EndsOf(c, bytes, req, 0) == 0
  {
  }

  lemma DamagedAtMost(c: Cfg, bytes: seq<byte>, req: nat, n: nat)
    requires Parsed(c)
    ensures |Damaged(c, bytes, req, n)| <= n
  {
    hide Intact;
    hide Slot;
    hide SlotOf;
    Subset(Damaged(c, bytes, req, n), Below(n));
  }

  lemma SlotIs(c: Cfg, q: nat, req: nat, blk: nat)
    requires req < c.requests
    ensures q == SlotOf(c, req, blk) <==> q % c.requests == req && q / c.requests == blk
    ensures q % c.requests <= q && q / c.requests <= q
  {
    hide At;
    CoordinatesIff(q, c.requests, blk, req);
    CoordinatesSmall(q, c.requests);
  }

  /** In a written store exactly one slot verifies for a request and block number: the
      one `block_ptr` gives. */
  lemma VerifiesOnlyInPlace(c: Cfg, bytes: seq<byte>, hi: nat, q: nat, req: nat, blk: nat)
    requires Parsed(c) && Written(c, bytes, 0, hi) && q < hi < WORD && req < c.requests
    ensures VerifyBlock(c, Slot(bytes, c.blockBytes, q), req, blk) <==> q == SlotOf(c, req, blk)
  {
    hide VerifyBlock;
    hide Block;
    hide Slot;
    hide SlotOf;
    SlotIs(c, q, req, blk);
    BlockVerifies(c, q % c.requests, q / c.requests, req, blk);
  }

  lemma ImageEnds(c: Cfg, req: nat, blk: nat)
    requires Parsed(c)
    ensures EndBytes(Block(c, req, blk)) == 0x4b + FillFor(req, blk)
  {
    FirstByte(Words(req, blk, TurnOf(c, blk)));
    assert MAGIC % 256 == 0x4b;
    hide FillFor;
    hide Encode;
    hide TurnOf;
  }

  lemma SlotInPrefix(c: Cfg, req: nat, blk: nat, n: nat)
    requires req < c.requests && blk < n
    ensures SlotOf(c, req, blk) < At(n, c.requests)
  {
    AtBefore(blk, n, c.requests);
  }

  lemma CleanBlock(c: Cfg, bytes: seq<byte>, hi: nat, req: nat, blk: nat)
    requires Parsed(c) && SlotOf(c, req, blk) < hi < WORD && req < c.requests && Written(c, bytes, 0, hi)
    ensures Intact(c, Slot(bytes, c.blockBytes, SlotOf(c, req, blk)), req, blk)
    ensures EndBytes(Slot(bytes, c.blockBytes, SlotOf(c, req, blk))) == 0x4b + FillFor(req, blk)
  {
    hide Intact;
    hide Block;
    hide Content;
    hide Slot;
    hide SlotOf;
    hide EndBytes;
    hide FillFor;
    ContentAt(c, req, blk);
    BlockIntact(c, req, blk);
    ImageEnds(c, req, blk);
  }

  lemma BlockIntact(c: Cfg, req: nat, blk: nat)
    requires Parsed(c)
    ensures Intact(c, Block(c, req, blk), req, blk)
  {
    hide Encode;
    hide FillFor;
    hide TurnOf;
    var words := Words(req, blk, TurnOf(c, blk));
    assert Block(c, req, blk)[..TAG_BYTES] == Encode(words);
  }

  /** What has been written is not damaged, and its end bytes add up to what the layout
      determines. */
  lemma CleanRead(c: Cfg, bytes: seq<byte>, hi: nat, req: nat, n: nat)
    requires Parsed(c) && req < c.requests && At(n, c.requests) <= hi < WORD && Written(c, bytes, 0, hi)
    ensures Damaged(c, bytes, req, n) == {}
    ensures EndsOf(c, bytes, req, n) == RequestSum(0x4b, req, n)
  {
    hide Intact;
    hide Written;
    hide Slot;
    hide SlotOf;
    hide At;
    hide EndBytes;
    hide FillFor;
    var f := (blk: nat) => EndBytes(Slot(bytes, c.blockBytes, SlotOf(c, req, blk)));
    var g := (blk: nat) => 0x4b + FillFor(req, blk);
    forall blk: nat | blk < n
      ensures Intact(c, Slot(bytes, c.blockBytes, SlotOf(c, req, blk)), req, blk) && f(blk) == g(blk)
    {
      SlotInPrefix(c, req, blk, n);
      CleanBlock(c, bytes, hi, req, blk);
    }
    SumToSame(f, g, n);
  }

  /** `reader_thread` after the gate, over any store: how many blocks are damaged, and the
      wrapped sum of the end bytes. */
  method ReaderThread(c: Cfg, store: array<byte>, sizes: Sizes, req: nat, n: nat, verify: bool)
    returns (blocks: nat, fails: nat, sum: nat)
    requires Parsed(c) && SizeCheck(c) == Some(sizes) && sizes.storeBytes <= store.Length
    requires req < c.requests && n <= Blocks(c, c.rounds)
    ensures blocks == n && fails == (if verify then |Damaged(c, store[..], req, n)| else 0)
    ensures sum == Wrap64(EndsOf(c, store[..], req, n))
  {
    hide *;
    blocks, fails, sum := 0, 0, 0;
    var blk := 0;
    NoBlocks(c, store[..], req);
    NothingWraps();
    while blk < n
      invariant blk <= n && blocks == blk
      invariant fails == if verify then |Damaged(c, store[..], req, blk)| else 0
      invariant sum == Wrap64(EndsOf(c, store[..], req, blk))
    {
      var off := BlockPtr(c, sizes.chunkBytes, req, blk);
      BlockToRead(c, store[..], sizes, req, blk);
      var check := store[off..off + c.blockBytes];
      OneMoreBlock(c, store[..], req, blk);
      AddEnds(EndsOf(c, store[..], req, blk), EndBytes(check));
      sum := Add64(sum, check[0] as int + check[c.blockBytes - 1] as int);
      if verify && !VerifyBlock(c, check, req, blk) {
        fails := fails + 1;
      }
      blocks := blocks + 1;
      blk := blk + 1;
    }
  }

  /** The bytes at the computed address are the block's slot. */
  lemma BlockToRead(c: Cfg, bytes: seq<byte>, sizes: Sizes, req: nat, blk: nat)
    requires Parsed(c) && SizeCheck(c) == Some(sizes) && sizes.storeBytes <= |bytes|
    requires req < c.requests && blk < Blocks(c, c.rounds)
    ensures var off := BlockPtr(c, sizes.chunkBytes, req, blk);
            && 0 < c.blockBytes && off + c.blockBytes <= |bytes|
            && var src := bytes[off..off + c.blockBytes];
            && src == Slot(bytes, c.blockBytes, SlotOf(c, req, blk))
            && EndBytes(src) == src[0] as int + src[c.blockBytes - 1] as int
            && (VerifyBlock(c, src, req, blk) <==> Intact(c, src, req, blk))
  {
    hide VerifyBlock;
    hide Intact;
    hide SizeCheck;
    hide Blocks;
    hide SlotOf;
    hide BlockPtr;
    hide Mul64;
    hide At;
    BlockPtrExact(c, sizes, req, blk);
    BlocksSmall(c);
    var off := BlockPtr(c, sizes.chunkBytes, req, blk);
    VerifyIff(c, bytes[off..off + c.blockBytes], req, blk);
  }

  lemma BlocksSmall(c: Cfg)
    requires Parsed(c)
    ensures Blocks(c, c.rounds) < WORD
  {
    ProductBound(c.rounds, c.reqPerBlocks);
  }

  datatype Report = Report(blocks: nat, fails: nat, checksum: nat)

  /** Over the first `requests` requests: damaged blocks, and end bytes added up. */
  function DamagedBlocks(c: Cfg, bytes: seq<byte>, requests: nat, n: nat): nat
    requires Parsed(c)
  {
    SumTo((req: nat) => |Damaged(c, bytes, req, n)|, requests)
  }

  function EndSum(c: Cfg, bytes: seq<byte>, requests: nat, n: nat): nat {
    SumTo((req: nat) => EndsOf(c, bytes, req, n), requests)
  }

  /** What reading the first `n` blocks of every request finds in a store. */
  function ReportOf(c: Cfg, bytes: seq<byte>, n: nat, verify: bool): Report
    requires Parsed(c)
  {
    Report(At(c.requests, n), if verify then DamagedBlocks(c, bytes, c.requests, n) else 0,
           Wrap64(EndSum(c, bytes, c.requests, n)))
  }

  /** What a cumulative read after turn `turn` should report. */
  function Expected(c: Cfg, turn: nat): Report {
    Report(At(c.requests, Blocks(c, turn)), 0, Wrap64(StoreSum(0x4b, c.requests, Blocks(c, turn))))
  }

  /** `read_cumulative`, over any store: the shared counters after every reader has added
      its own. */
  method ReadCumulative(c: Cfg, store: array<byte>, sizes: Sizes, turn: nat, verify: bool)
    returns (report: Report)
    requires Parsed(c) && SizeCheck(c) == Some(sizes) && sizes.storeBytes <= store.Length && turn <= c.rounds
    ensures report == ReportOf(c, store[..], Blocks(c, turn), verify)
  {
    hide *;
    var n := Mul64(turn, c.reqPerBlocks);
    ReadFits(c, sizes, turn);
    NoRequests(c, store[..], n);
    NothingWraps();
    var blocks, fails, checksum := 0, 0, 0;
    var req := 0;
    while req < c.requests
      invariant req <= c.requests
      invariant blocks == At(req, n) && fails == if verify then DamagedBlocks(c, store[..], req, n) else 0
      invariant checksum == Wrap64(EndSum(c, store[..], req, n))
    {
      var b, f, s := ReaderThread(c, store, sizes, req, n, verify);
      OneMoreRequest(c, store[..], req, n);
      AddWrapped(EndSum(c, store[..], req, n), EndsOf(c, store[..], req, n));
      blocks := Add64(blocks, b);
      fails := Add64(fails, f);
      checksum := Add64(checksum, s);
      req := req + 1;
    }
    report := Report(blocks, fails, checksum);
    ReportIs(c, store[..], n, verify);
  }

  lemma NothingWraps()
    ensures Wrap64(0) == 0
  {
  }

  lemma AddEnds(total: nat, ends: nat)
    ensures Add64(Wrap64(total), ends) == Wrap64(total + ends)
  {
    ModAdd(total, ends);
  }

  lemma NoRequests(c: Cfg, bytes: seq<byte>, n: nat)
    requires Parsed(c)
    ensures At(0, n) == 0 && DamagedBlocks(c, bytes, 0, n) == 0 && EndSum(c, bytes, 0, n) == 0
  {
    AtNext(0, n);
  }

  lemma ReportIs(c: Cfg, bytes: seq<byte>, n: nat, verify: bool)
    requires Parsed(c)
    ensures ReportOf(c, bytes, n, verify)
            == Report(At(c.requests, n), if verify then DamagedBlocks(c, bytes, c.requests, n) else 0,
                      Wrap64(EndSum(c, bytes, c.requests, n)))
  {
  }

  lemma {:induction false} DamagedBlocksAtMost(c: Cfg, bytes: seq<byte>, requests: nat, n: nat)
    requires Parsed(c)
    ensures DamagedBlocks(c, bytes, requests, n) <= At(requests, n)
  {
    hide Damaged;
    if requests == 0 {
      AtNext(0, n);
    } else {
      DamagedBlocksAtMost(c, bytes, requests - 1, n);
      DamagedAtMost(c, bytes, requests - 1, n);
      AtNext(requests - 1, n);
      hide At;
    }
  }

  /** The counters after one more reader; the first two do not wrap. */
  lemma OneMoreRequest(c: Cfg, bytes: seq<byte>, req: nat, n: nat)
    requires Parsed(c) && req < c.requests && At(c.requests, n) < WORD
    ensures Add64(At(req, n), n) == At(req + 1, n) && Add64(0, 0) == 0
    ensures Add64(DamagedBlocks(c, bytes, req, n), |Damaged(c, bytes, req, n)|)
            == DamagedBlocks(c, bytes, req + 1, n)
    ensures EndSum(c, bytes, req + 1, n) == EndSum(c, bytes, req, n) + EndsOf(c, bytes, req, n)
  {
    hide At;
    hide Add64;
    hide Damaged;
    hide EndsOf;
    hide Parsed;
    AtNext(req, n);
    AtBefore(req, c.requests, n);
    DamagedBlocksAtMost(c, bytes, req, n);
    DamagedAtMost(c, bytes, req, n);
    Add64Small(At(req, n), n);
    Add64Small(DamagedBlocks(c, bytes, req, n), |Damaged(c, bytes, req, n)|);
    Add64Small(0, 0);
  }

  lemma CleanSum(c: Cfg, bytes: seq<byte>, n: nat)
    requires Parsed(c) && At(n, c.requests) < WORD && Written(c, bytes, 0, At(n, c.requests))
    ensures EndSum(c, bytes, c.requests, n) == StoreSum(0x4b, c.requests, n)
  {
    hide Parsed;
    hide Written;
    hide Damaged;
    hide EndsOf;
    hide RequestSum;
    hide At;
    var sums, sums' := (req: nat) => EndsOf(c, bytes, req, n), (req: nat) => RequestSum(0x4b, req, n);
    forall req: nat | req < c.requests ensures sums(req) == sums'(req) {
      CleanRead(c, bytes, At(n, c.requests), req, n);
    }
    SumToSame(sums, sums', c.requests);
  }

  lemma {:induction false} CleanDamage(c: Cfg, bytes: seq<byte>, requests: nat, n: nat)
    requires Parsed(c) && At(n, c.requests) < WORD && Written(c, bytes, 0, At(n, c.requests))
    requires requests <= c.requests
    ensures DamagedBlocks(c, bytes, requests, n) == 0
  {
    hide Parsed;
    hide Written;
    hide Damaged;
    hide At;
    if requests > 0 {
      CleanDamage(c, bytes, requests - 1, n);
      CleanRead(c, bytes, At(n, c.requests), requests - 1, n);
    }
  }

  /** After a turn, with everything so far written, the report is the expected one. */
  lemma CleanReport(c: Cfg, sizes: Sizes, bytes: seq<byte>, turn: nat, verify: bool)
    requires Parsed(c) && SizeCheck(c) == Some(sizes) && turn <= c.rounds
    requires Written(c, bytes, 0, At(Blocks(c, turn), c.requests))
    ensures ReportOf(c, bytes, Blocks(c, turn), verify) == Expected(c, turn)
  {
    hide *;
    ReadFits(c, sizes, turn);
    CleanSum(c, bytes, Blocks(c, turn));
    CleanDamage(c, bytes, c.requests, Blocks(c, turn));
    ReportIs(c, bytes, Blocks(c, turn), verify);
    ExpectedIs(c, turn);
  }

  lemma ExpectedIs(c: Cfg, turn: nat)
    ensures Expected(c, turn)
            == Report(At(c.requests, Blocks(c, turn)), 0, Wrap64(StoreSum(0x4b, c.requests, Blocks(c, turn))))
  {
  }

  lemma AddWrapped(a: nat, b: nat)
    ensures Add64(Wrap64(a), Wrap64(b)) == Wrap64(a + b)
  {
    ModAdd(a, b % WORD);
    ModAdd(b, a);
  }

  lemma ReadFits(c: Cfg, sizes: Sizes, turn: nat)
    requires Parsed(c) && SizeCheck(c) == Some(sizes) && turn <= c.rounds
    ensures Mul64(turn, c.reqPerBlocks) == Blocks(c, turn) <= Blocks(c, c.rounds)
    ensures At(c.requests, Blocks(c, turn)) == At(Blocks(c, turn), c.requests) < WORD
  {
    SizeCheckExact(c);
    ProductBound(turn, c.reqPerBlocks);
    Mul64Small(turn, c.reqPerBlocks);
    MulMono(turn, c.rounds, c.reqPerBlocks);
    MulMono(Blocks(c, turn), Blocks(c, c.rounds), c.requests);
    Shrink(At(Blocks(c, c.rounds), c.requests), c.blockBytes);
    hide SizeCheck;
    hide Blocks;
  }

  // ----- The turn loop --------------------------------------------------------------

  /** `uint32_t` increment of the turn counter. */
  function NextTurn(turn: nat): nat {
    (turn + 1) % 0x1_0000_0000
  }

  /** The turn number of iteration `n` of the turn loop. */
  function TurnAt(n: nat): nat {
    if n == 0 then 1 else NextTurn(TurnAt(n - 1))
  }

  lemma NextTurnIs(n: nat)
    ensures NextTurn(n % 0x1_0000_0000) == (n + 1) % 0x1_0000_0000
  {
  }

  lemma {:induction false} TurnAtIs(n: nat)
    ensures TurnAt(n) == (n + 1) % 0x1_0000_0000
  {
    if n > 0 {
      TurnAtIs(n - 1);
      NextTurnIs(n);
      hide NextTurn;
    }
  }

  lemma TurnRange(n: nat)
    ensures TurnAt(n) <= 0xffff_ffff && (n < 0xffff_ffff ==> TurnAt(n) == n + 1)
  {
    TurnAtIs(n);
    hide TurnAt;
  }

  /** The loop's guard fails after exactly `rounds` turns; it ever fails if and only if
      `rounds` is not the largest 32-bit number, for which the counter wraps to turn 0. */
  lemma TurnLoopEnds(rounds: nat)
    requires 1 <= rounds < 0x1_0000_0000
    ensures (exists n :: TurnAt(n) > rounds) <==> rounds != 0xffff_ffff
    ensures rounds != 0xffff_ffff ==> TurnAt(rounds) > rounds && forall n: nat :: n < rounds ==> TurnAt(n) == n + 1
  {
    hide TurnAt;
    forall n: nat ensures TurnAt(n) <= 0xffff_ffff && (n < 0xffff_ffff ==> TurnAt(n) == n + 1) { TurnRange(n); }
    assert rounds < 0xffff_ffff ==> TurnAt(rounds) == rounds + 1;
  }

  /** The loop gets to iteration `n`. */
  ghost predicate Reaches(rounds: nat, n: nat) {
    forall m: nat :: m <= n ==> TurnAt(m) <= rounds
  }

  /** Every block a turn writes is inside the store. */
  ghost predicate StaysInside(c: Cfg, sizes: Sizes, turn: nat) {
    forall i: nat, req: nat :: i < c.reqPerBlocks && req < c.requests ==>
      WriteOffset(c, sizes.chunkBytes, turn, i, req) + c.blockBytes <= sizes.storeBytes
  }

  /** In an accepted configuration every write of every turn the loop gets to is inside
      the store if and only if there are fewer than 2^32 - 1 rounds. */
  lemma WritesInside(c: Cfg, sizes: Sizes)
    requires Parsed(c) && SizeCheck(c) == Some(sizes)
    ensures (forall n: nat :: Reaches(c.rounds, n) ==> StaysInside(c, sizes, TurnAt(n))) <==> c.rounds != 0xffff_ffff
  {
    hide SizeCheck;
    hide WriteOffset;
    hide TurnAt;
    if c.rounds == 0xffff_ffff {
      var n := 0xffff_ffff;
      forall m: nat ensures TurnAt(m) <= c.rounds { TurnRange(m); }
      TurnAtIs(n);
      TurnZeroEscapes(c, sizes);
      assert Reaches(c.rounds, n) && !StaysInside(c, sizes, TurnAt(n));
    } else {
      TurnLoopEnds(c.rounds);
      forall n: nat | Reaches(c.rounds, n) ensures StaysInside(c, sizes, TurnAt(n)) {
        assert TurnAt(c.rounds) > c.rounds;
        forall i: nat, req: nat | i < c.reqPerBlocks && req < c.requests
          ensures WriteOffset(c, sizes.chunkBytes, TurnAt(n), i, req) + c.blockBytes <= sizes.storeBytes
        {
          WriteOffsetIs(c, sizes, TurnAt(n), i, req);
        }
      }
    }
  }

  /** Such a configuration: one request, one block a turn, the smallest block. */
  lemma ManyRoundsAccepted()
    ensures var c := Cfg(1, 1, 41, 0xffff_ffff);
            Parsed(c) && SizeCheck(c) == Some(Sizes(41, 41 * 0xffff_ffff))
  {
    SizeCheckExact(Cfg(1, 1, 41, 0xffff_ffff));
  }

  /** The turns of `main`: each appends its blocks and reads back everything so far.
      Every cumulative read reports all blocks written, no failure, and the checksum
      the layout determines.  With fewer than 2^32 - 1 rounds that is all; otherwise a
      further turn is about to write behind the store, where the model stops. */
  method RunTurns(c: Cfg, store: array<byte>, sizes: Sizes, verify: bool) returns (reports: seq<Report>, inside: bool)
    requires Parsed(c) && SizeCheck(c) == Some(sizes) && sizes.storeBytes <= store.Length
    modifies store
    ensures inside <==> c.rounds != 0xffff_ffff
    ensures |reports| == c.rounds
    ensures forall t :: 1 <= t <= c.rounds ==> reports[t - 1] == Expected(c, t)
    ensures Written(c, store[..], 0, At(Blocks(c, c.rounds), c.requests))
  {
    RoundsRange(c);
    hide SizeCheck;
    hide Parsed;
    hide Written;
    hide TurnWritten;
    hide Expected;
    hide At;
    hide Blocks;
    hide NextTurn;
    reports, inside := [], true;
    var turn := 1;
    NothingWritten(c, store[..]);
    while turn <= c.rounds
      invariant turn <= c.rounds + 1 && |reports| == if turn == 0 then c.rounds else turn - 1
      invariant turn == 0 ==> c.rounds == 0xffff_ffff
      invariant turn > 0 && c.rounds == 0xffff_ffff ==> turn <= c.rounds
      invariant inside
      invariant forall t :: 1 <= t <= |reports| ==> reports[t - 1] == Expected(c, t)
      invariant Written(c, store[..], 0, At(Blocks(c, |reports|), c.requests))
      decreases if turn == 0 then 0 else c.rounds + 2 - turn
    {
      ghost var before := store[..];
      inside := WriteTurn(c, store, sizes, turn);
      if !inside {
        return;
      }
      TurnAppends(c, before, store[..], turn);
      var report := ReadCumulative(c, store, sizes, turn, verify);
      CleanReport(c, sizes, store[..], turn, verify);
      reports := reports + [report];
      NextTurnCases(turn);
      turn := NextTurn(turn);
    }
  }

  lemma NextTurnCases(turn: nat)
    requires turn <= 0xffff_ffff
    ensures NextTurn(turn) == if turn == 0xffff_ffff then 0 else turn + 1
  {
  }

  lemma RoundsRange(c: Cfg)
    requires Parsed(c)
    ensures 1 <= c.rounds <= 0xffff_ffff
  {
  }

  lemma TurnAppends(c: Cfg, before: seq<byte>, after: seq<byte>, turn: nat)
    requires Parsed(c) && turn >= 1 && TurnWritten(c, before, after, turn)
    requires Written(c, before, 0, At(Blocks(c, turn - 1), c.requests))
    ensures Written(c, after, 0, At(Blocks(c, turn), c.requests))
  {
    hide Written;
    hide OnlyIn;
    hide At;
    var lo, hi := At(Blocks(c, turn - 1), c.requests), At(Blocks(c, turn), c.requests);
    StaysWritten(c, before, after, 0, lo, hi);
    WrittenJoin(c, after, lo, hi);
  }

  lemma NothingWritten(c: Cfg, bytes: seq<byte>)
    requires Parsed(c)
    ensures Written(c, bytes, 0, At(Blocks(c, 0), c.requests))
  {
    AtNext(0, c.requests);
    AtNext(0, c.reqPerBlocks);
  }

  lemma WrittenJoin(c: Cfg, bytes: seq<byte>, mid: nat, hi: nat)
    requires Parsed(c) && Written(c, bytes, 0, mid) && Written(c, bytes, mid, hi)
    ensures Written(c, bytes, 0, hi)
  {
    hide Slot;
    hide Content;
  }
}
