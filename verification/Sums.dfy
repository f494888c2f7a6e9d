/**
 Sums of the first n values of a function, and their remainders modulo 2^64.
 */
module Sums {
  import opened Word64

  function SumTo(f: nat -> nat, n: nat): nat {
    if n == 0 then 0 else SumTo(f, n - 1) + f(n - 1)
  }

  lemma {:induction false} SumToSame(f: nat -> nat, g: nat -> nat, n: nat)
    requires forall i: nat :: i < n ==> f(i) == g(i)
    ensures SumTo(f, n) == SumTo(g, n)
  {
    if n > 0 { SumToSame(f, g, n - 1); }
  }

  /** Changing one summand changes the sum by the difference. */
  lemma {:induction false} SumToChange(f: nat -> nat, g: nat -> nat, n: nat, i: nat)
    requires i < n && forall j: nat :: j < n && j != i ==> f(j) == g(j)
    ensures SumTo(g, n) + f(i) == SumTo(f, n) + g(i)
  {
    if i == n - 1 {
      SumToSame(f, g, n - 1);
    } else {
      SumToChange(f, g, n - 1, i);
    }
  }

  lemma {:induction false} SumToPositive(f: nat -> nat, n: nat) returns (i: nat)
    requires SumTo(f, n) > 0
    ensures i < n && f(i) > 0
  {
    if f(n - 1) > 0 { i := n - 1; } else { i := SumToPositive(f, n - 1); }
  }

  lemma {:induction false} SumToMember(f: nat -> nat, n: nat, i: nat)
    requires i < n
    ensures f(i) <= SumTo(f, n)
  {
    if i < n - 1 { SumToMember(f, n - 1, i); }
  }

  lemma {:induction false} SumToZero(f: nat -> nat, n: nat)
    requires forall i: nat :: i < n ==> f(i) == 0
    ensures SumTo(f, n) == 0
  {
    if n > 0 { SumToZero(f, n - 1); }
  }

  lemma {:induction false} SumToConstant(f: nat -> nat, n: nat, c: nat)
    requires forall i: nat :: i < n ==> f(i) == c
    ensures SumTo(f, n) == n * c
  {
    if n > 0 {
      SumToConstant(f, n - 1, c);
      assert n * c == (n - 1) * c + c;
    }
  }

  lemma ModAdd(a: nat, b: nat)
    ensures (a % WORD + b) % WORD == (a + b) % WORD
  {
  }

  /** Adding to a wrapped total. */
  lemma AddTo(acc: nat, total: nat, d: nat)
    requires acc == total % WORD
    ensures Add64(acc, d) == (total + d) % WORD
  {
    ModAdd(total, d);
  }

  lemma ModAddBoth(a: nat, a': nat, b: nat)
    requires a % WORD == a' % WORD
    ensures (a + b % WORD) % WORD == (a' + b) % WORD
  {
    ModAdd(a, b % WORD);
    ModAdd(a', b % WORD);
    ModAdd(b, a');
  }

  /** Wrapping each summand does not change the wrapped sum. */
  lemma {:induction false} SumOfWrapped(f: nat -> nat, g: nat -> nat, n: nat)
    requires forall i: nat :: i < n ==> f(i) == g(i) % WORD
    ensures SumTo(f, n) % WORD == SumTo(g, n) % WORD
  {
    if n > 0 {
      SumOfWrapped(f, g, n - 1);
      ModAddBoth(SumTo(f, n - 1), SumTo(g, n - 1), g(n - 1));
    }
  }
}
