// Binary digits of a natural number, as GMP reads them, and the signed
// (non-adjacent form) recoding that the scalar multiplications and curve_init
// are built on.
module Bits {

  // n shifted right by i places.
  function Shift(n: nat, i: nat): nat {
    if i == 0 then n else Shift(n, i - 1) / 2
  }

  // mpz_tstbit
  function Bit(n: nat, i: nat): (b: nat)
    ensures b <= 1
  {
    Shift(n, i) % 2
  }

  // mpz_sizeinbase(n, 2), which is 1 for zero.
  function BitLen(n: nat): (len: nat)
    ensures len >= 1
  {
    if n < 2 then 1 else 1 + BitLen(n / 2)
  }

  lemma ShiftStep(n: nat, i: nat)
    ensures Shift(n, i) == 2 * Shift(n, i + 1) + Bit(n, i)
  {
  }

  lemma {:induction false} ShiftHalf(n: nat, i: nat)
    ensures Shift(n, i + 1) == Shift(n / 2, i)
  {
    if i > 0 { ShiftHalf(n, i - 1); }
  }

  // The leading bit is at position BitLen(n) - 1, unless n is zero.
  lemma {:induction false} LeadingBit(n: nat)
    ensures BitLen(n) > 0 && Shift(n, BitLen(n)) == 0
    ensures Shift(n, BitLen(n) - 1) == if n == 0 then 0 else 1
  {
    if n >= 2 {
      LeadingBit(n / 2);
      ShiftHalf(n, BitLen(n / 2));
      ShiftHalf(n, BitLen(n / 2) - 1);
    } else {
      assert Shift(n, 0) == n;
    }
  }

  lemma {:induction false} ShiftAtMost(n: nat, l: nat)
    ensures Shift(n, l) <= n
  {
    if l > 0 { ShiftAtMost(n, l - 1); }
  }

  lemma {:induction false} ShiftFalls(n: nat, i: nat, j: nat)
    requires i <= j
    ensures Shift(n, j) <= Shift(n, i)
  {
    if i < j { ShiftFalls(n, i, j - 1); }
  }

  lemma {:induction false} BitLenMonotone(n: nat, q: nat)
    requires n <= q
    ensures BitLen(n) <= BitLen(q)
  {
    if n >= 2 { BitLenMonotone(n / 2, q / 2); }
  }

  // The first set bit at or after position l, or top.
  function FirstSet(n: nat, l: nat, top: nat): (i: nat)
    requires l <= top
    ensures l <= i <= top && (Bit(n, top) == 1 ==> Bit(n, i) == 1)
    decreases top - l
  {
    if l < top && Bit(n, l) == 0 then FirstSet(n, l + 1, top) else l
  }

  // mpz_scan1: the first set bit at or after position l.
  method Scan1(n: nat, l: nat, ghost top: nat) returns (i: nat)
    requires l <= top && Bit(n, top) == 1
    ensures i == FirstSet(n, l, top) && forall k :: l <= k < i ==> Bit(n, k) == 0
  {
    i := l;
    while Bit(n, i) == 0
      invariant l <= i <= top && FirstSet(n, i, top) == FirstSet(n, l, top)
      invariant forall k :: l <= k < i ==> Bit(n, k) == 0
      decreases top - i
    {
      i := i + 1;
    }
  }
}
