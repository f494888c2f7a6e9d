/**
 Multiples of a service time.
 */
module Spans {

  /** The time `k` requests take. */
  function Span(k: nat, delta: real): real {
    k as real * delta
  }

  lemma SpanStep(k: nat, delta: real)
    ensures Span(k + 1, delta) == Span(k, delta) + delta
  {
    assert (k + 1) as real == k as real + 1.0;
  }

  lemma SpanAdd(j: nat, k: nat, delta: real)
    ensures Span(j + k, delta) == Span(j, delta) + Span(k, delta)
  {
    assert (j + k) as real == j as real + k as real;
  }

  lemma SpanGrows(j: nat, k: nat, delta: real)
    requires delta > 0.0 && j <= k
    ensures Span(j, delta) <= Span(k, delta)
  {
    SpanAdd(j, k - j, delta);
    assert Span(k - j, delta) >= 0.0;
  }

  lemma SpanCompare(j: nat, k: nat, delta: real)
    requires delta > 0.0
    ensures Span(k, delta) <= Span(j, delta) ==> k <= j
  {
    if j < k {
      SpanGrows(j + 1, k, delta);
      SpanStep(j, delta);
    }
  }
}
