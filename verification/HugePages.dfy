/**
 How `xaligned_alloc` rounds a size up to whole 2 MiB pages, in 64-bit arithmetic.
 */
module HugePages {
  import opened Wrappers
  import opened Word64

  const PAGE: nat := 0x20_0000

  /** Add one less than a page, then clear the low 21 bits. */
  function RoundUp(bytes: nat): nat {
    Add64(bytes, PAGE - 1) / PAGE * PAGE
  }

  /** The rounded length covers the size exactly when the sum does not wrap. */
  lemma RoundUpCovers(bytes: nat)
    requires bytes < WORD
    ensures RoundUp(bytes) >= bytes <==> bytes <= WORD - PAGE
    ensures bytes <= WORD - PAGE ==> RoundUp(bytes) < bytes + PAGE && RoundUp(bytes) % PAGE == 0
    ensures bytes > WORD - PAGE ==> RoundUp(bytes) == 0
  {
  }

  /** The version of `test3-mt.c`, which refuses sizes that would wrap. */
  function CheckedLength(bytes: nat): Option<nat> {
    if bytes == 0 || bytes > WORD - 1 - (PAGE - 1) then None else Some(RoundUp(bytes))
  }

  /** It refuses nothing but the empty store and the sizes whose rounding fails. */
  lemma CheckedLengthCovers(bytes: nat)
    requires bytes < WORD
    ensures CheckedLength(bytes).Some? <==> bytes > 0 && RoundUp(bytes) >= bytes
    ensures CheckedLength(bytes).Some? ==> bytes <= CheckedLength(bytes).value < WORD
  {
    RoundUpCovers(bytes);
  }
}
