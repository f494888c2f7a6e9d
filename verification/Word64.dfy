/**
 Unsigned 64-bit arithmetic, with the wrap-around written out, and the few facts about
 products and quotients that the layouts rest on.
 */
module Word64 {
  import opened Wrappers

  const WORD: nat := 0x1_0000_0000_0000_0000

  /** What a 64-bit variable keeps of a number. */
  function Wrap64(x: nat): nat {
    x % WORD
  }

  function Mul64(a: nat, b: nat): nat {
    (a * b) % WORD
  }

  function Add64(a: nat, b: nat): nat {
    (a + b) % WORD
  }

  /** `checked_mul_u64`. */
  function CheckedMul(a: nat, b: nat): Option<nat> {
    if a != 0 && b > (WORD - 1) / a then None else Some(Mul64(a, b))
  }

  lemma ModSmall(x: nat)
    requires x < WORD
    ensures x % WORD == x
  {
  }

  lemma Mul64Small(a: nat, b: nat)
    requires a * b < WORD
    ensures Mul64(a, b) == a * b
  {
    ModSmall(a * b);
  }

  lemma Add64Small(a: nat, b: nat)
    requires a + b < WORD
    ensures Add64(a, b) == a + b
  {
  }

  lemma MulMono(a: nat, b: nat, c: nat)
    requires a <= b
    ensures a * c <= b * c && c * a <= c * b
  {
  }

  lemma MulCancel(a: nat, b: nat, c: nat)
    requires a * c < b * c
    ensures a < b
  {
    if a >= b { MulMono(b, a, c); }
  }

  lemma Assoc(a: nat, b: nat, c: nat)
    ensures a * (b * c) == a * b * c
  {
  }

  lemma Succ(a: nat, b: nat)
    ensures (a + 1) * b == a * b + b
  {
  }

  lemma Shrink(a: nat, b: nat)
    requires b > 0
    ensures a <= a * b
  {
    MulMono(1, b, a);
  }

  lemma Distribute(a: nat, b: nat, c: nat)
    ensures (a + b) * c == a * c + b * c
  {
  }

  lemma Divides(n: nat, d: nat)
    requires d > 0
    ensures n / d * d <= n < (n / d + 1) * d
    ensures n == n / d * d + n % d
  {
    Succ(n / d, d);
  }

  lemma QuotientSmall(n: nat, d: nat)
    requires d > 0
    ensures n / d <= n
  {
    var t := n / d;
    Divides(n, d);
    Shrink(t, d);
  }

  lemma DivModUnique(q: nat, w: nat, blk: nat, req: nat)
    requires req < w && q == blk * w + req
    ensures q / w == blk && q % w == req
  {
    Divides(q, w);
    Succ(q / w, w);
    Succ(blk, w);
    MulCancel(q / w, blk + 1, w);
    MulCancel(blk, q / w + 1, w);
  }

  lemma CeilDiv(n: nat, d: nat)
    requires d > 0
    ensures n <= (n + d - 1) / d * d && (n + d - 1) / d <= n
  {
    var q := (n + d - 1) / d;
    Divides(n + d - 1, d);
    Succ(q, d);
    Succ(n, d);
    Shrink(n, d);
    MulCancel(q, n + 1, d);
  }

  /** The overflow test compares with a quotient instead of the product. */
  lemma QuotientTest(a: nat, b: nat)
    requires a > 0
    ensures b > (WORD - 1) / a <==> b * a >= WORD
  {
    var q := (WORD - 1) / a;
    Divides(WORD - 1, a);
    if b <= q { MulMono(b, q, a); } else { MulMono(q + 1, b, a); }
  }

  /** The check refuses exactly the products that do not fit. */
  lemma CheckedMulExact(a: nat, b: nat)
    ensures CheckedMul(a, b) == if a * b < WORD then Some(a * b) else None
  {
    if a > 0 {
      QuotientTest(a, b);
      assert b * a == a * b;
    }
    if a * b < WORD { Mul64Small(a, b); }
  }

  lemma ProductBound(a: nat, b: nat)
    requires a < 0x1_0000_0000 && b < 0x1_0000_0000
    ensures a * b < WORD
  {
    MulMono(a, 0xffff_ffff, b);
    MulMono(b, 0xffff_ffff, 0xffff_ffff);
  }

  // ----- Rows of equal items ------------------------------------------------------

  /** Where item `q` of a row of equal items starts. */
  function At(q: nat, size: nat): nat {
    q * size
  }

  lemma AtSum(p: nat, q: nat, size: nat)
    ensures At(p + q, size) == At(p, size) + At(q, size)
  {
    Distribute(p, q, size);
  }

  lemma AtNext(q: nat, size: nat)
    ensures At(q + 1, size) == At(q, size) + size && At(0, size) == 0
  {
    Succ(q, size);
  }

  lemma AtBefore(p: nat, q: nat, size: nat)
    ensures p < q ==> At(p, size) + size <= At(q, size)
  {
    if p < q {
      AtNext(p, size);
      MulMono(p + 1, q, size);
    }
  }

  lemma AtAt(chunk: nat, slots: nat, size: nat)
    ensures At(At(chunk, slots), size) == chunk * At(slots, size)
  {
    Assoc(chunk, slots, size);
  }

  lemma PartsIff(q: nat, w: nat, a: nat, b: nat, row: nat, col: nat)
    requires b < w && col < w && q == At(a, w) + b
    ensures q == At(row, w) + col <==> a == row && b == col
  {
    AtBefore(a, row, w);
    AtBefore(row, a, w);
    hide At;
  }

  lemma PartsOf(q: nat, w: nat)
    requires w > 0
    ensures q % w < w && q == At(q / w, w) + q % w
  {
    Divides(q, w);
  }

  /** Item `q` of rows of width `w` is item `col` of row `row`. */
  lemma CoordinatesIff(q: nat, w: nat, row: nat, col: nat)
    requires col < w
    ensures q == At(row, w) + col <==> q / w == row && q % w == col
  {
    hide At;
    PartsOf(q, w);
    PartsIff(q, w, q / w, q % w, row, col);
  }

  lemma CoordinatesSmall(q: nat, w: nat)
    requires w > 0
    ensures q / w <= q && q % w <= q
  {
    PartsOf(q, w);
    QuotientSmall(q, w);
    hide At;
  }
}
