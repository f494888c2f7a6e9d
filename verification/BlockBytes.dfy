/**
 Tagged blocks as bytes.  A block starts with a tag of little-endian 64-bit words
 and is otherwise filled with one byte value.
 */
module BlockBytes {

  import opened Word64
  import opened Sums

  type byte = b: int | 0 <= b < 256

  function Two(bits: nat): (r: nat)
    ensures r > 0
  {
    if bits == 0 then 1 else 2 * Two(bits - 1)
  }

  /** The exclusive or of the lowest bits of two numbers. */
  function Xor(a: nat, b: nat, bits: nat): (r: nat)
    ensures r < Two(bits)
  {
    if bits == 0 then 0 else (a + b) % 2 + 2 * Xor(a / 2, b / 2, bits - 1)
  }

  lemma TwoByte()
    ensures Two(8) == 256
  {
    assert Two(4) == 16;
    assert Two(6) == 64;
  }

  function XorByte(a: byte, b: byte): byte {
    TwoByte();
    Xor(a, b, 8)
  }

  /** `fill_for`: the casts keep the low bytes of the two products. */
  function FillFor(req: nat, blk: nat): byte {
    XorByte(XorByte(0xa5, (req * 31) % 256), (blk * 17) % 256)
  }

  /** Bit `k` of a number. */
  function Bit(x: nat, k: nat): nat {
    if k == 0 then x % 2 else Bit(x / 2, k - 1)
  }

  lemma {:induction false} XorBit(a: nat, b: nat, bits: nat, k: nat)
    requires k < bits
    ensures Bit(Xor(a, b, bits), k) == (if Bit(a, k) == Bit(b, k) then 0 else 1)
  {
    var high := Xor(a / 2, b / 2, bits - 1);
    LowBit((a + b) % 2, high);
    if k == 0 {
      Parity(a, b);
    } else {
      XorBit(a / 2, b / 2, bits - 1, k - 1);
      hide Two;
    }
  }

  lemma Parity(a: nat, b: nat)
    ensures (a + b) % 2 == (if a % 2 == b % 2 then 0 else 1)
  {
  }

  lemma LowBit(low: nat, high: nat)
    requires low < 2
    ensures (low + 2 * high) % 2 == low && (low + 2 * high) / 2 == high
  {
  }

  /** Exclusive or, bit by bit. */
  lemma XorByteBit(a: byte, b: byte, k: nat)
    requires k < 8
    ensures Bit(XorByte(a, b), k) == (if Bit(a, k) == Bit(b, k) then 0 else 1)
  {
    TwoByte();
    XorBit(a, b, 8, k);
    hide Xor;
    hide Bit;
  }

  lemma {:induction false} LowBits(x: nat, k: nat, bits: nat)
    requires k < bits
    ensures Bit(x % Two(bits), k) == Bit(x, k)
  {
    TwoHalves(x, bits);
    if k > 0 { LowBits(x / 2, k - 1, bits - 1); }
  }

  lemma TwoHalves(x: nat, bits: nat)
    requires bits > 0
    ensures x % Two(bits) % 2 == x % 2 && x % Two(bits) / 2 == x / 2 % Two(bits - 1)
  {
    ModHalves(x, Two(bits - 1));
  }

  lemma ModHalves(x: nat, t: nat)
    requires t > 0
    ensures x % (2 * t) % 2 == x % 2 && x % (2 * t) / 2 == x / 2 % t
  {
    var h := x / 2;
    PartsOf(h, t);
    var q, r := h / t, h % t;
    Assoc(q, 2, t);
    CoordinatesIff(x, 2 * t, q, 2 * r + x % 2);
    LowBit(x % 2, r);
  }

  /** The bits of the low byte of a number are its own. */
  lemma LowByteBit(x: nat, k: nat)
    requires k < 8
    ensures Bit(x % 256, k) == Bit(x, k) < 2
  {
    hide Bit;
    hide Two;
    TwoByte();
    LowBits(x, k, 8);
    BitRange(x, k);
  }

  /** Every bit of the fill byte is the parity of the bits of 0xa5, of 31 times the request
      and of 17 times the block number. */
  lemma FillBits(req: nat, blk: nat, k: nat)
    requires k < 8
    ensures Bit(FillFor(req, blk), k) == (Bit(0xa5, k) + Bit(req * 31, k) + Bit(blk * 17, k)) % 2
  {
    hide Bit;
    hide XorByte;
    var x, y, z := req * 31, blk * 17, XorByte(0xa5, (req * 31) % 256);
    LowByteBit(x, k);
    LowByteBit(y, k);
    BitRange(0xa5, k);
    XorByteBit(0xa5, x % 256, k);
    XorByteBit(z, y % 256, k);
    ParityOfThree(Bit(0xa5, k), Bit(x, k), Bit(y, k));
  }

  lemma ParityOfThree(p: nat, q: nat, r: nat)
    requires p < 2 && q < 2 && r < 2
    ensures (if (if p == q then 0 else 1) == r then 0 else 1) == (p + q + r) % 2
  {
  }

  lemma {:induction false} BitRange(x: nat, k: nat)
    ensures Bit(x, k) < 2
  {
    if k > 0 { BitRange(x / 2, k - 1); }
  }

  lemma Halves(a: nat, b: nat, x: nat)
    ensures a == b <==> (a + x) % 2 == (b + x) % 2 && a / 2 == b / 2
    ensures a == b <==> (x + a) % 2 == (x + b) % 2 && a / 2 == b / 2
  {
  }

  lemma Digits(p: nat, q: nat, r: nat, s: nat)
    requires p < 2 && r < 2
    ensures p + 2 * q == r + 2 * s <==> p == r && q == s
  {
  }

  lemma {:induction false} XorDetermines(a: nat, b: nat, x: nat, bits: nat)
    requires a < Two(bits) && b < Two(bits)
    ensures Xor(a, x, bits) == Xor(b, x, bits) <==> a == b
    ensures Xor(x, a, bits) == Xor(x, b, bits) <==> a == b
  {
    if bits > 0 {
      var n := bits - 1;
      XorDetermines(a / 2, b / 2, x / 2, n);
      Halves(a, b, x);
      Digits((a + x) % 2, Xor(a / 2, x / 2, n), (b + x) % 2, Xor(b / 2, x / 2, n));
      Digits((x + a) % 2, Xor(x / 2, a / 2, n), (x + b) % 2, Xor(x / 2, b / 2, n));
    }
  }

  /** A byte is recovered from its exclusive or with a known one. */
  lemma XorCancel(a: byte, b: byte, x: byte)
    ensures XorByte(a, x) == XorByte(b, x) <==> a == b
    ensures XorByte(x, a) == XorByte(x, b) <==> a == b
  {
    TwoByte();
    XorDetermines(a, b, x, 8);
    hide Xor;
  }

  lemma AddMultiple(x: nat, m: nat)
    ensures (x + 256 * m) % 256 == x % 256
  {
  }

  lemma TimesKeeps(a: nat, b: nat, factor: nat)
    requires a % 256 == b % 256 && a >= b
    ensures (a * factor) % 256 == (b * factor) % 256
  {
    var k := (a - b) / 256;
    assert a == b + 256 * k;
    MultipleTimes(b, k, factor);
  }

  lemma MultipleTimes(b: nat, k: nat, factor: nat)
    ensures ((b + 256 * k) * factor) % 256 == (b * factor) % 256
  {
    Distribute(b, 256 * k, factor);
    Assoc(256, k, factor);
    AddMultiple(b * factor, k * factor);
  }

  /** The odd factors lose nothing modulo 256. */
  lemma OddFactors(a: nat, b: nat)
    requires a >= b
    ensures (a * 31) % 256 == (b * 31) % 256 <==> a % 256 == b % 256
    ensures (a * 17) % 256 == (b * 17) % 256 <==> a % 256 == b % 256
  {
    if a % 256 == b % 256 {
      TimesKeeps(a, b, 31);
      TimesKeeps(a, b, 17);
    }
    if (a * 31) % 256 == (b * 31) % 256 {
      TimesKeeps(a * 31, b * 31, 223);
      AddMultiple(a, 27 * a);
      AddMultiple(b, 27 * b);
    }
    if (a * 17) % 256 == (b * 17) % 256 {
      TimesKeeps(a * 17, b * 17, 241);
      AddMultiple(a, 16 * a);
      AddMultiple(b, 16 * b);
    }
  }

  /** The fill bytes of two requests, or of two blocks of a request, agree exactly when
      their numbers agree modulo 256. */
  lemma FillDistinguishes(req: nat, req': nat, blk: nat, blk': nat)
    ensures FillFor(req, blk) == FillFor(req', blk) <==> req % 256 == req' % 256
    ensures FillFor(req, blk) == FillFor(req, blk') <==> blk % 256 == blk' % 256
  {
    hide XorByte;
    var r, r', b, b' := (req * 31) % 256, (req' * 31) % 256, (blk * 17) % 256, (blk' * 17) % 256;
    if req >= req' { OddFactors(req, req'); } else { OddFactors(req', req); }
    if blk >= blk' { OddFactors(blk, blk'); } else { OddFactors(blk', blk); }
    XorCancel(XorByte(0xa5, r), XorByte(0xa5, r'), b);
    XorCancel(r, r', 0xa5);
    XorCancel(b, b', XorByte(0xa5, r));
  }

  // ----- 64-bit words as bytes ------------------------------------------------

  function Pow256(n: nat): (r: nat)
    ensures r > 0
  {
    if n == 0 then 1 else 256 * Pow256(n - 1)
  }

  function ToBytes(x: nat, n: nat): (r: seq<byte>)
    ensures |r| == n
  {
    if n == 0 then [] else [x % 256] + ToBytes(x / 256, n - 1)
  }

  function FromBytes(bs: seq<byte>): nat {
    if bs == [] then 0 else bs[0] + 256 * FromBytes(bs[1..])
  }

  /** The bytes of a word, lowest first. */
  lemma {:induction false} ByteAt(x: nat, n: nat, k: nat)
    requires k < n
    ensures ToBytes(x, n)[k] == (x / Pow256(k)) % 256
  {
    if k > 0 {
      ByteAt(x / 256, n - 1, k - 1);
      DivTwice(x, Pow256(k - 1));
    }
  }

  lemma DivTwice(x: nat, d: nat)
    requires d > 0
    ensures x / 256 / d == x / (256 * d)
  {
    var h := x / 256;
    PartsOf(h, d);
    Assoc(h / d, 256, d);
    Assoc(h / d, d, 256);
    CoordinatesIff(x, 256 * d, h / d, 256 * (h % d) + x % 256);
  }

  /** A word is determined by its bytes. */
  lemma {:induction false} BytesRoundTrip(bs: seq<byte>)
    ensures ToBytes(FromBytes(bs), |bs|) == bs && FromBytes(bs) < Pow256(|bs|)
  {
    if bs != [] {
      BytesRoundTrip(bs[1..]);
      assert bs == [bs[0]] + bs[1..];
    }
  }

  /** Loading a stored word gives the word back. */
  lemma {:induction false} WordRoundTrip(x: nat, n: nat)
    requires x < Pow256(n)
    ensures FromBytes(ToBytes(x, n)) == x
  {
    if n > 0 {
      WordRoundTrip(x / 256, n - 1);
      assert ToBytes(x, n)[1..] == ToBytes(x / 256, n - 1);
    }
  }

  lemma WordLimit()
    ensures Pow256(8) == WORD
  {
    assert Pow256(1) == 256 * Pow256(0);
    assert Pow256(2) == 256 * Pow256(1);
    assert Pow256(3) == 256 * Pow256(2);
    assert Pow256(4) == 256 * Pow256(3);
    assert Pow256(5) == 256 * Pow256(4);
    assert Pow256(6) == 256 * Pow256(5);
    assert Pow256(7) == 256 * Pow256(6);
    assert Pow256(8) == 256 * Pow256(7);
  }

  /** The words of a tag, stored one after the other. */
  function Encode(words: seq<nat>): (r: seq<byte>)
    ensures |r| == 8 * |words|
  {
    if words == [] then [] else Encode(words[..|words| - 1]) + ToBytes(words[|words| - 1], 8)
  }

  /** Word `i` of a tag at the start of `src`. */
  function WordAt(src: seq<byte>, i: nat): nat
    requires 8 * i + 8 <= |src|
  {
    FromBytes(src[8 * i..8 * i + 8])
  }

  lemma {:induction false} EncodeAt(words: seq<nat>, i: nat)
    requires i < |words|
    ensures Encode(words)[8 * i..8 * i + 8] == ToBytes(words[i], 8)
  {
    var m := |words| - 1;
    if i < m {
      EncodeAt(words[..m], i);
    }
  }

  /** Reading word `i` of a stored tag gives the word that was stored. */
  lemma TagRoundTrip(words: seq<nat>, rest: seq<byte>, i: nat)
    requires i < |words| && words[i] < WORD
    ensures WordAt(Encode(words) + rest, i) == words[i]
  {
    hide Encode;
    hide Pow256;
    hide ToBytes;
    hide FromBytes;
    assert (Encode(words) + rest)[8 * i..8 * i + 8] == Encode(words)[8 * i..8 * i + 8];
    EncodeAt(words, i);
    WordLimit();
    WordRoundTrip(words[i], 8);
  }

  /** The bytes are those of a tag exactly when its words are. */
  lemma {:induction false} TagDetermined(words: seq<nat>, src: seq<byte>)
    requires 8 * |words| <= |src| && forall i :: 0 <= i < |words| ==> words[i] < WORD
    ensures src[..8 * |words|] == Encode(words) <==> forall i :: 0 <= i < |words| ==> WordAt(src, i) == words[i]
  {
    hide WordAt;
    hide ToBytes;
    if words != [] {
      var m := |words| - 1;
      var head, last := words[..m], src[8 * m..8 * m + 8];
      TagDetermined(head, src);
      OneWord(words[m], src, m);
      TwoParts(src[..8 * m], last, Encode(head), ToBytes(words[m], 8));
      assert src[..8 * m + 8] == src[..8 * m] + last;
    }
  }

  lemma OneWord(x: nat, src: seq<byte>, i: nat)
    requires 8 * i + 8 <= |src| && x < WORD
    ensures src[8 * i..8 * i + 8] == ToBytes(x, 8) <==> WordAt(src, i) == x
  {
    hide ToBytes;
    hide FromBytes;
    WordDetermined(x, src[8 * i..8 * i + 8]);
  }

  lemma TwoParts(a: seq<byte>, b: seq<byte>, a': seq<byte>, b': seq<byte>)
    requires |a| == |a'|
    ensures a + b == a' + b' <==> a == a' && b == b'
  {
    if a + b == a' + b' {
      assert a == (a + b)[..|a|] && b == (a + b)[|a|..];
      assert a' == (a' + b')[..|a|] && b' == (a' + b')[|a|..];
    }
  }

  lemma WordDetermined(x: nat, bs: seq<byte>)
    requires |bs| == 8 && x < WORD
    ensures bs == ToBytes(x, 8) <==> FromBytes(bs) == x
  {
    WordLimit();
    WordRoundTrip(x, 8);
    BytesRoundTrip(bs);
    hide ToBytes;
    hide FromBytes;
  }

  function Repeat(v: byte, n: nat): (r: seq<byte>)
    ensures |r| == n && forall i :: 0 <= i < n ==> r[i] == v
  {
    seq(n, i => v)
  }

  lemma {:induction false} FirstByte(words: seq<nat>)
    requires words != []
    ensures |Encode(words)| > 0 && Encode(words)[0] == words[0] % 256
  {
    if |words| == 1 {
      assert Encode(words) == ToBytes(words[0], 8);
    } else {
      FirstByte(words[..|words| - 1]);
    }
  }

  /** The bytes `fill_block` leaves: the tag, then the fill byte. */
  function Image(words: seq<nat>, fill: byte, size: nat): (r: seq<byte>)
    requires 8 * |words| <= size
    ensures |r| == size
  {
    Encode(words) + Repeat(fill, size - 8 * |words|)
  }

  /** Byte by byte: eight little-endian bytes for each word, the fill byte after them. */
  lemma ImageBytes(words: seq<nat>, fill: byte, size: nat, k: nat)
    requires 8 * |words| <= size && k < size
    ensures Image(words, fill, size)[k] ==
            if k < 8 * |words| then (words[k / 8] / Pow256(k % 8)) % 256 else fill
  {
    hide Encode;
    hide ToBytes;
    hide Pow256;
    if k < 8 * |words| {
      var i := k / 8;
      EncodeAt(words, i);
      ByteAt(words[i], 8, k % 8);
      assert Encode(words)[8 * i..8 * i + 8][k % 8] == Encode(words)[k];
    }
  }

  /** What one block adds to the reader's sum: its first and its last byte. */
  function EndBytes(src: seq<byte>): nat {
    if src == [] then 0 else src[0] as int + src[|src| - 1] as int
  }

  lemma {:induction false} ZeroWord(n: nat)
    ensures FromBytes(Repeat(0, n)) == 0
  {
    if n > 0 {
      assert Repeat(0, n)[1..] == Repeat(0, n - 1);
      ZeroWord(n - 1);
    }
  }

  /** What the end bytes of a request's blocks add up to, if the low byte of the magic
      number is `low`: that byte and the fill byte of every block. */
  function RequestSum(low: nat, req: nat, blocks: nat): nat {
    SumTo((blk: nat) => low + FillFor(req, blk), blocks)
  }

  function StoreSum(low: nat, requests: nat, blocks: nat): nat {
    SumTo((req: nat) => RequestSum(low, req, blocks), requests)
  }

  lemma SumSteps(low: nat, req: nat, blocks: nat)
    ensures RequestSum(low, req, blocks + 1) == RequestSum(low, req, blocks) + (low + FillFor(req, blocks))
    ensures StoreSum(low, req + 1, blocks) == StoreSum(low, req, blocks) + RequestSum(low, req, blocks)
    ensures RequestSum(low, req, 0) == 0 && StoreSum(low, 0, blocks) == 0
  {
    hide FillFor;
  }

  // ----- Writing blocks into an array -----------------------------------------

  /** Two stores agree outside `[off, off + n)`. */
  ghost predicate SameOutside(before: seq<byte>, after: seq<byte>, off: nat, n: nat) {
    |before| == |after| && forall i :: 0 <= i < |after| && !(off <= i < off + n) ==> after[i] == before[i]
  }

  /** Two writes inside one stretch leave everything outside it alone. */
  lemma SameOutsideTwice(a: seq<byte>, b: seq<byte>, c: seq<byte>, off: nat, n: nat, off': nat, n': nat)
    requires SameOutside(a, b, off, n) && SameOutside(b, c, off', n')
    requires off <= off' && off' + n' <= off + n
    ensures SameOutside(a, c, off, n)
  {
  }

  method Memset(a: array<byte>, off: nat, v: byte, n: nat)
    requires off + n <= a.Length
    modifies a
    ensures a[off..off + n] == Repeat(v, n)
    ensures SameOutside(old(a[..]), a[..], off, n)
  {
    for i := 0 to n
      invariant forall j :: off <= j < off + i ==> a[j] == v
      invariant forall j :: 0 <= j < a.Length && !(off <= j < off + i) ==> a[j] == old(a[j])
    {
      a[off + i] := v;
    }
  }

  method Memcpy(a: array<byte>, off: nat, src: seq<byte>)
    requires off + |src| <= a.Length
    modifies a
    ensures a[off..off + |src|] == src
    ensures SameOutside(old(a[..]), a[..], off, |src|)
  {
    for i := 0 to |src|
      invariant forall j :: 0 <= j < i ==> a[off + j] == src[j]
      invariant forall j :: 0 <= j < a.Length && !(off <= j < off + i) ==> a[j] == old(a[j])
    {
      a[off + i] := src[i];
    }
  }

  /** `fill_block`, for any tag. */
  method FillBlock(a: array<byte>, off: nat, size: nat, words: seq<nat>, fill: byte)
    requires off + size <= a.Length && 8 * |words| <= size
    modifies a
    ensures a[off..off + size] == Image(words, fill, size)
    ensures SameOutside(old(a[..]), a[..], off, size)
  {
    hide Encode;
    hide SameOutside;
    ghost var before := a[..];
    Memset(a, off, fill, size);
    ghost var filled := a[..];
    Memcpy(a, off, Encode(words));
    Overwritten(filled, a[..], off, size, Encode(words), fill);
    SameOutsideTwice(before, filled, a[..], off, size, off, |Encode(words)|);
  }

  /** The start of a filled stretch, overwritten. */
  lemma Overwritten(filled: seq<byte>, after: seq<byte>, off: nat, size: nat, head: seq<byte>, fill: byte)
    requires |head| <= size && off + size <= |after| == |filled|
    requires filled[off..off + size] == Repeat(fill, size)
    requires after[off..off + |head|] == head && SameOutside(filled, after, off, |head|)
    ensures after[off..off + size] == head + Repeat(fill, size - |head|)
  {
    var got, want, was := after[off..off + size], head + Repeat(fill, size - |head|), filled[off..off + size];
    var start := after[off..off + |head|];
    forall i | 0 <= i < size ensures got[i] == want[i] {
      if i < |head| {
        assert got[i] == start[i];
      } else {
        assert got[i] == was[i];
      }
    }
  }

  // ----- Stores as rows of slots --------------------------------------------------

  /** Slot `q` of a store, or nothing if the store ends before it. */
  function Slot(bytes: seq<byte>, size: nat, q: nat): seq<byte> {
    if At(q, size) + size <= |bytes| then bytes[At(q, size)..At(q, size) + size] else []
  }

  /** Two stores agree on every slot outside `[lo, hi)`. */
  ghost predicate SameSlots(before: seq<byte>, after: seq<byte>, size: nat, lo: nat, hi: nat) {
    |before| == |after| && forall q: nat :: !(lo <= q < hi) ==> Slot(after, size, q) == Slot(before, size, q)
  }

  /** Writing `[off, off + n)` leaves the slots outside it as they are. */
  lemma SlotUntouched(before: seq<byte>, after: seq<byte>, off: nat, n: nat, size: nat, q: nat)
    requires SameOutside(before, after, off, n)
    requires At(q, size) + size <= off || off + n <= At(q, size)
    ensures Slot(after, size, q) == Slot(before, size, q)
  {
    hide At;
  }
}
