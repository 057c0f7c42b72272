// Signed-digit recoding: the non-adjacent form of a natural number, defined by
// its textbook recursion, and the carry loop that curve_init, point_mul and
// point_mul_postprocess each contain.
module Naf {
  import opened Bits

  // The lowest signed digit of k and what remains above it.
  function Digit(k: nat): int {
    if k % 2 == 0 then 0 else if k % 4 == 1 then 1 else -1
  }

  function Above(k: nat): nat { (k - Digit(k)) / 2 }

  // The part of n that the digits from position i upwards stand for.
  function Rest(n: nat, i: nat): nat {
    if i == 0 then n else Above(Rest(n, i - 1))
  }

  function NafDigit(n: nat, i: nat): int { Digit(Rest(n, i)) }

  // What a digit string stands for, least significant digit first.
  function Value(s: seq<int>): int {
    if s == [] then 0 else s[0] + 2 * Value(s[1..])
  }

  ghost predicate IsNaf(n: nat, s: seq<int>) {
    |s| == BitLen(n) + 1 && forall i :: 0 <= i < |s| ==> s[i] == NafDigit(n, i)
  }

  lemma DigitStep(k: nat)
    ensures k == Digit(k) + 2 * Above(k) && -1 <= Digit(k) <= 1
    ensures Digit(k) != 0 ==> Above(k) % 2 == 0 && Digit(Above(k)) == 0
  {
    var h, r := k / 4, k % 4;
    QuarterDigit(k, h, r);
    hide Above, Digit;
    EvenDigit(h); EvenDigit(h + 1);
    assert 2 * (h + 1) == 2 * h + 2;
  }

  lemma QuarterDigit(k: nat, h: nat, r: nat)
    requires k == 4 * h + r && r < 4
    ensures Digit(k) == if r == 0 || r == 2 then 0 else if r == 1 then 1 else -1
    ensures Above(k) == if r == 2 then 2 * h + 1 else if r == 3 then 2 * h + 2 else 2 * h
  {
    Residues(k, h, r);
    Half(k - Digit(k), if r == 2 then 2 * h + 1 else if r == 3 then 2 * h + 2 else 2 * h);
  }

  lemma Residues(k: int, h: int, r: int)
    requires k == 4 * h + r && 0 <= r < 4
    ensures k % 4 == r && k % 2 == if r == 0 || r == 2 then 0 else 1
  {
  }

  lemma Half(d: int, a: int)
    requires d == 2 * a
    ensures d / 2 == a && d % 2 == 0
  {
  }

  lemma EvenDigit(h: nat)
    ensures Digit(2 * h) == 0 && (2 * h) % 2 == 0
  {
    Half(2 * h, h);
  }

  lemma RestStep(n: nat, i: nat)
    ensures Rest(n, i) == NafDigit(n, i) + 2 * Rest(n, i + 1)
    ensures -1 <= NafDigit(n, i) <= 1
    ensures NafDigit(n, i) != 0 ==> Rest(n, i + 1) % 2 == 0 && NafDigit(n, i + 1) == 0
  {
    DigitStep(Rest(n, i));
    hide Digit, Above;
  }

  lemma RestZero(n: nat)
    ensures Rest(n, 0) == n == Shift(n, 0)
  {
  }

  // The carry into position i.
  lemma {:induction false} RestBounds(n: nat, i: nat)
    ensures Shift(n, i) <= Rest(n, i) <= Shift(n, i) + 1
  {
    hide Shift, Bit, Rest, NafDigit, Digit, Above;
    if i == 0 {
      RestZero(n);
    } else {
      RestBounds(n, i - 1);
      ShiftStep(n, i - 1);
      RestStep(n, i - 1);
    }
  }

  lemma CarryArithmetic(k: nat, y: nat, b0: nat, b1: nat, c0: nat, c1: nat, s: int)
    requires b0 <= 1 && b1 <= 1 && c0 <= 1 && k == 4 * y + 2 * b1 + b0 + c0
    requires c1 == (b0 + b1 + c0) / 2 && s == b0 + c0 - 2 * c1
    ensures c1 <= 1 && s == Digit(k) && Above(k) == 2 * y + b1 + c1
  {
  }

  // One step of the carry loop produces the textbook digit.
  lemma CarryStep(n: nat, i: nat, c0: nat, c1: nat, s: int)
    requires Rest(n, i) == Shift(n, i) + c0 && c0 <= 1
    requires c1 == (Bit(n, i) + Bit(n, i + 1) + c0) / 2 && s == Bit(n, i) + c0 - 2 * c1
    ensures c1 <= 1 && s == NafDigit(n, i) && Rest(n, i + 1) == Shift(n, i + 1) + c1
  {
    hide Digit, Above, Shift, Bit;
    ShiftStep(n, i);
    ShiftStep(n, i + 1);
    CarryArithmetic(Rest(n, i), Shift(n, i + 2), Bit(n, i), Bit(n, i + 1), c0, c1, s);
  }

  method Recode(n: nat) returns (s: array<int>)
    ensures fresh(s) && IsNaf(n, s[..])
  {
    hide Shift, Bit, BitLen, Rest, NafDigit;
    assert Rest(n, 0) == Shift(n, 0) by { RestZero(n); }
    var m := BitLen(n);
    s := new int[m + 1];
    var c0 := 0;
    var j := 0;
    while j <= m
      invariant 0 <= j <= m + 1 && 0 <= c0 <= 1
      invariant Rest(n, j) == Shift(n, j) + c0
      invariant forall i :: 0 <= i < j ==> s[i] == NafDigit(n, i)
    {
      var c1 := (Bit(n, j) + Bit(n, j + 1) + c0) / 2;
      s[j] := Bit(n, j) + c0 - 2 * c1;
      CarryStep(n, j, c0, c1, s[j]);
      c0 := c1;
      j := j + 1;
    }
  }

  // Exactly one of the two top positions is used, and it holds a 1.
  lemma TopDigit(n: nat)
    requires n > 0
    ensures var m := BitLen(n);
            Rest(n, m + 1) == 0 &&
            if NafDigit(n, m) != 0
              then Rest(n, m) == 1 && NafDigit(n, m) == 1 && NafDigit(n, m - 1) == 0
              else Rest(n, m) == 0 && Rest(n, m - 1) == 1 && NafDigit(n, m - 1) == 1
  {
    var m := BitLen(n);
    LeadingBit(n);
    RestBounds(n, m); RestBounds(n, m - 1);
    RestStep(n, m - 1); RestStep(n, m);
  }

  // The position of the leading digit.
  function Top(n: nat): (t: nat)
    requires n > 0
    ensures t <= BitLen(n)
  {
    LeadingBit(n);
    if NafDigit(n, BitLen(n)) != 0 then BitLen(n) else BitLen(n) - 1
  }

  lemma {:induction false} RestPositive(n: nat, i: nat)
    requires n > 0 && i <= Top(n)
    ensures Rest(n, i) > 0 && (i == Top(n) ==> Rest(n, i) == 1)
    ensures i < Top(n) ==> Rest(n, i) > 1
    decreases Top(n) - i
  {
    TopDigit(n);
    if i < Top(n) {
      RestPositive(n, i + 1);
      RestStep(n, i);
    }
  }

  lemma {:induction false} ValueOfDigits(n: nat, s: seq<int>, i: nat)
    requires forall k :: 0 <= k < |s| ==> s[k] == NafDigit(n, i + k)
    requires Rest(n, i + |s|) == 0
    ensures Value(s) == Rest(n, i)
    decreases |s|
  {
    hide Rest, NafDigit;
    if s != [] {
      ValueOfDigits(n, s[1..], i + 1);
      RestStep(n, i);
    }
  }

  // The recoding represents n with digits -1, 0, 1, no two neighbours both
  // non-zero, and exactly one of the two leading places in use.
  lemma NafCorrect(n: nat, s: seq<int>)
    requires n > 0 && IsNaf(n, s)
    ensures Value(s) == n
    ensures forall i :: 0 <= i < |s| ==> -1 <= s[i] <= 1
    ensures forall i, j :: 0 <= i < j < |s| && j == i + 1 ==> s[i] == 0 || s[j] == 0
    ensures var m := BitLen(n); (s[m] == 1 && s[m - 1] == 0) || (s[m] == 0 && s[m - 1] == 1)
  {
    hide Shift, Bit, BitLen, Rest, NafDigit, Value, Digit, Above, IsNaf;
    DigitAt(n, s, 0);
    TopDigit(n);
    RestZero(n);
    forall k | 0 <= k < |s| ensures s[k] == NafDigit(n, 0 + k) { DigitAt(n, s, k); }
    ValueOfDigits(n, s, 0);
    forall i | 0 <= i < |s| ensures -1 <= s[i] <= 1 { DigitAt(n, s, i); RestStep(n, i); }
    forall i, j | 0 <= i < j < |s| && j == i + 1 ensures s[i] == 0 || s[j] == 0 { Adjacent(n, s, i); }
    var m := BitLen(n);
    DigitAt(n, s, m); DigitAt(n, s, m - 1);
  }

  lemma DigitAt(n: nat, s: seq<int>, i: nat)
    requires IsNaf(n, s) && i <= BitLen(n)
    ensures |s| == BitLen(n) + 1 && s[i] == NafDigit(n, i)
  {
    hide NafDigit, BitLen;
  }

  lemma Adjacent(n: nat, s: seq<int>, i: nat)
    requires IsNaf(n, s) && i < BitLen(n)
    ensures |s| == BitLen(n) + 1 && (s[i] == 0 || s[i + 1] == 0)
  {
    hide Shift, Bit, BitLen, Rest, NafDigit, IsNaf;
    DigitAt(n, s, i); DigitAt(n, s, i + 1);
    RestStep(n, i);
  }
}
