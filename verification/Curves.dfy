// curve_init, points, and the tables a curve carries.
module Curves {
  import opened NumberTheory
  import opened Powers
  import opened Bits
  import opened Naf
  import opened EllipticCurve
  import opened Fp2

  function Abs(n: int): nat { if n < 0 then -n else n }

  function Sign(n: int): int { if n > 0 then 1 else if n < 0 then -1 else 0 }

  function P2(n: nat): int { IPow(2, n) }

  // The number that the pair of Solinas exponents (a, b) stands for.
  function SolinasValue(a: int, b: int): int {
    P2(Abs(a)) + (if b == 0 then 0 else Sign(b) * P2(Abs(b))) + Sign(a)
  }

  // The number of non-zero signed digits of n below position i.
  function DigitCount(n: nat, i: nat): nat {
    if i == 0 then 0 else DigitCount(n, i - 1) + (if NafDigit(n, i - 1) != 0 then 1 else 0)
  }

  // Their positions.
  ghost function NonZeroDigits(n: nat, i: nat): (s: set<nat>)
    ensures forall k: nat :: k in s <==> k < i && NafDigit(n, k) != 0
  {
    set k: nat | k < i && NafDigit(n, k) != 0
  }

  lemma {:induction false} DigitsCounted(n: nat, i: nat)
    ensures DigitCount(n, i) == |NonZeroDigits(n, i)|
  {
    if i == 0 {
      assert NonZeroDigits(n, 0) == {};
    } else {
      DigitsCounted(n, i - 1);
      assert NonZeroDigits(n, i)
          == if NafDigit(n, i - 1) != 0 then NonZeroDigits(n, i - 1) + {i - 1} else NonZeroDigits(n, i - 1);
    }
  }

  lemma {:induction false} DigitCountMonotone(n: nat, i: nat, j: nat)
    requires i <= j
    ensures DigitCount(n, i) <= DigitCount(n, j)
    decreases j
  {
    if i < j { DigitCountMonotone(n, i, j - 1); }
  }

  lemma {:induction false} P2Grows(i: nat, j: nat)
    requires i < j
    ensures 1 <= P2(i) && 2 * P2(i) <= P2(j)
    decreases j
  {
    if i < j - 1 {
      P2Grows(i, j - 1);
    } else {
      P2Positive(i);
    }
  }

  lemma {:induction false} P2Positive(i: nat)
    ensures P2(i) >= 1 && P2(i + 1) == 2 * P2(i)
  {
    if i > 0 { P2Positive(i - 1); }
  }

  class Point {
    const x: Elem
    const y: Elem
    var infinity: bool

    constructor ()
      ensures fresh(x) && fresh(y) && x != y
      ensures !infinity && x.Val() == ZERO && y.Val() == ZERO
    {
      x := new Elem();
      y := new Elem();
      infinity := false;
    }

    // The point of E/F_p that the real parts of the coordinates give.
    ghost function Real(): Pt
      reads this, x, y
    {
      if infinity then O else A(x.a, y.a)
    }

    // The point whose multiples point_mul computes: it reads the real parts only,
    // and an ordinate p, which the hashing can produce, stands for 0.
    ghost function Meant(p: Pos): Pt
      reads x, y
    {
      A(x.a, if y.a == p then 0 else y.a)
    }

    lemma SpecialIsMeant(p: Pos)
      requires Special(p)
      ensures Meant(p) == Real()
    {
    }

    // A finite point of E/F_p in canonical form.
    ghost predicate Special(p: Pos)
      reads this, x, y
    {
      !infinity && x.b == 0 && y.b == 0 && OnCurve(Real(), p)
    }

    method Set(P: Point)
      requires x != y && x != P.y
      modifies this, x, y
      ensures infinity == old(P.infinity) && x.Val() == old(P.x.Val()) && y.Val() == old(P.y.Val())
    {
      x.Set(P.x);
      y.Set(P.y);
      infinity := P.infinity;
    }

    method SetReal(vx: int, vy: int)
      requires x != y
      modifies this, x, y
      ensures !infinity && x.Val() == G(vx, 0) && y.Val() == G(vy, 0)
    {
      x.b := 0;
      y.b := 0;
      x.a := vx;
      y.a := vy;
      infinity := false;
    }
  }

  class Curve {
    const p: Pos
    const q: Pos
    const p1onq: nat
    const cbrtpwr: nat
    const tatepwr: nat
    var solinasa: int
    var solinasb: int
    const pre_x: array<int>
    const pre_y: array<int>

    predicate Valid() {
      && pre_x.Length == BitLen(q) + 1 && pre_y.Length == BitLen(q) + 1 && pre_x != pre_y
      && p1onq == (p + 1) / q && tatepwr == (p - 1) * p1onq && cbrtpwr == (2 * p - 1) / 3
    }

    // For odd q the exponents are exactly those of the non-adjacent form when it
    // has two or three digits, and zero otherwise.
    predicate SolinasOk()
      reads this
    {
      var w := DigitCount(q, BitLen(q) + 1);
      && (w == 2 || w == 3 ==> q == SolinasValue(solinasa, solinasb) && solinasa != 0)
      && (w == 2 || w == 3 ==> Abs(solinasb) + 1 < Abs(solinasa))
      && (w == 2 ==> solinasb == 0) && (w == 3 ==> Abs(solinasb) >= 2)
      && (w > 3 ==> solinasa == 0 && solinasb == 0)
      && w >= 2 && Abs(solinasa) <= BitLen(q)
    }

    constructor (prime: Pos, qprime: Pos)
      ensures p == prime && q == qprime && Valid()
      ensures p1onq == (prime + 1) / qprime && tatepwr == (prime - 1) * ((prime + 1) / qprime)
      ensures cbrtpwr == (2 * prime - 1) / 3
      ensures q % 2 == 1 && q >= 3 ==> SolinasOk()
      ensures var w := |NonZeroDigits(q, BitLen(q) + 1)|;
              q % 2 == 1 && q >= 3 ==>
                && (w == 2 ==> q == P2(Abs(solinasa)) + Sign(solinasa) && solinasb == 0)
                && (w == 3 ==> q == P2(Abs(solinasa)) + Sign(solinasb) * P2(Abs(solinasb)) + Sign(solinasa))
                && (w == 3 ==> 2 <= Abs(solinasb) < Abs(solinasa) - 1)
                && (w > 3 ==> solinasa == 0 && solinasb == 0)
      ensures fresh(pre_x) && fresh(pre_y)
    {
      p := prime;
      q := qprime;
      solinasa, solinasb := 0, 0;
      p1onq := (prime + 1) / qprime;
      cbrtpwr := (2 * prime - 1) / 3;
      tatepwr := (prime - 1) * ((prime + 1) / qprime);
      pre_x := new int[BitLen(qprime) + 1];
      pre_y := new int[BitLen(qprime) + 1];
      new;
      FindSolinas();
      DigitsCounted(q, BitLen(q) + 1);
    }

    // The digit loop, which gives up at a fourth non-zero digit.
    method FindSolinas()
      modifies this`solinasa, this`solinasb
      ensures q % 2 == 1 && q >= 3 ==> SolinasOk()
    {
      hide Rest, NafDigit, Shift, Bit, BitLen, IPow, SolinasState, SolinasValue, Sign;
      var m := BitLen(q);
      var c0, count, i := 0, 0, 0;
      ghost var odd := q % 2 == 1 && q >= 3;
      ghost var s0, t, d := 0, 0, 0;   // the lowest digit, the last non-zero position and its digit
      ghost var gaveUp := false;
      RestZero(q);
      SolinasStart(q, solinasa, solinasb);
      while i <= m
        invariant 0 <= i <= m + 1 && 0 <= c0 <= 1 && 0 <= count <= 3
        invariant Rest(q, i) == Shift(q, i) + c0
        invariant count == DigitCount(q, i)
        invariant odd && i > 0 ==> count > 0
        invariant !gaveUp && (odd ==> SolinasState(q, i, count, solinasa, solinasb, s0, t, d))
      {
        var c1 := (Bit(q, i) + Bit(q, i + 1) + c0) / 2;
        var j := Bit(q, i) + c0 - 2 * c1;
        CarryStep(q, i, c0, c1, j);
        if odd { SolinasStep(q, i, count, solinasa, solinasb, s0, t, d); }
        if j != 0 {
          if count >= 3 {
            solinasa := 0;
            solinasb := 0;
            DigitCountMonotone(q, i + 1, m + 1);
            gaveUp := true;
            break;
          }
          if i == 0 {
            solinasa := j;
            s0 := j;
          } else if count == 1 {
            solinasb := i * j;
          } else {
            solinasa := solinasa * i;
          }
          t, d := i, j;
          count := count + 1;
        }
        c0 := c1;
        i := i + 1;
      }
      if odd && !gaveUp {
        TopDigit(q);
        SolinasFinish(q, i, count, solinasa, solinasb, s0, t, d);
      }
      if count == 2 {
        solinasa := solinasa * solinasb;
        solinasb := 0;
      }
    }
  }

  // What the digits of an odd q below position i add up to.
  ghost predicate SolinasState(q: nat, i: nat, count: nat, a: int, b: int, s0: int, t: int, d: int) {
    var low := q - P2(i) * Rest(q, i);
    && (count == 0 <==> i == 0)
    && (count == 0 ==> low == 0)
    && (count >= 1 ==> (s0 == 1 || s0 == -1) && (d == 1 || d == -1) && 0 <= t < i && NafDigit(q, t) == d)
    && (count == 1 ==> a == s0 == d == low && t == 0)
    && (count == 2 ==> a == s0 && b == t * d && t >= 2 && low == s0 + d * P2(t))
    && (count == 3 ==> a == s0 * t && 2 <= Abs(b) && Abs(b) + 2 <= t && low == s0 + Sign(b) * P2(Abs(b)) + d * P2(t))
  }

  lemma SolinasStart(q: nat, a: int, b: int)
    ensures SolinasState(q, 0, 0, a, b, 0, 0, 0)
  {
    assert P2(0) == 1;
  }

  lemma LowStep(q: nat, i: nat)
    ensures q - P2(i + 1) * Rest(q, i + 1) == q - P2(i) * Rest(q, i) + NafDigit(q, i) * P2(i)
  {
    hide Rest, NafDigit, IPow;
    P2Positive(i);
    RestStep(q, i);
    LowArithmetic(P2(i), NafDigit(q, i), Rest(q, i + 1));
  }

  lemma LowArithmetic(u: int, e: int, r: int)
    ensures u * (e + 2 * r) == e * u + (2 * u) * r
  {
  }

  lemma SolinasStep(q: nat, i: nat, count: nat, a: int, b: int, s0: int, t: int, d: int)
    requires q % 2 == 1 && count <= 3 && SolinasState(q, i, count, a, b, s0, t, d)
    ensures i == 0 ==> NafDigit(q, i) != 0
    ensures var j := NafDigit(q, i);
            if j == 0 then SolinasState(q, i + 1, count, a, b, s0, t, d)
            else if count == 3 then true
            else if i == 0 then SolinasState(q, 1, 1, j, b, j, 0, j)
            else if count == 1 then SolinasState(q, i + 1, 2, a, i * j, s0, i, j)
            else SolinasState(q, i + 1, 3, a * i, b, s0, i, j)
  {
    LowStep(q, i);
    RestZero(q);
    RestStep(q, i);
    if count >= 1 { RestStep(q, t); }
    if i == 0 { assert P2(0) == 1; }
    hide Rest, NafDigit, IPow;
    if count == 2 { SignOfProduct(t, d); }
  }

  lemma SignOfProduct(t: int, d: int)
    requires t > 0 && (d == 1 || d == -1)
    ensures Abs(t * d) == t && Sign(t * d) == d
  {
  }

  lemma SolinasFinish(q: nat, i: nat, count: nat, a: int, b: int, s0: int, t: int, d: int)
    requires q >= 3 && SolinasState(q, i, count, a, b, s0, t, d) && Rest(q, i) == 0
    ensures 2 <= count
    ensures count == 2 ==> q == SolinasValue(a * b, 0) && a * b != 0 && Abs(0) + 1 < Abs(a * b) < i
    ensures count == 3 ==> q == SolinasValue(a, b) && a != 0 && 2 <= Abs(b) && Abs(b) + 1 < Abs(a) < i
    ensures Abs(0) == 0
  {
    hide Rest, NafDigit, IPow;
    assert P2(i) * Rest(q, i) == 0;
    P2Grows(0, t + 1);
    if count == 2 {
      P2Grows(0, t);
      LastDigitIsOne(q, s0, d, P2(t));
      SignOfProduct(t, s0);
      assert a * b == t * s0;
    } else if count == 3 {
      P2Grows(Abs(b), t);
      LastDigitIsOne(q, s0 + Sign(b) * P2(Abs(b)), d, P2(t)) by { SignTimes(b, P2(Abs(b))); }
      SignOfProduct(t, s0);
      assert a == t * s0;
    }
  }

  lemma SignTimes(b: int, v: int)
    requires v >= 1
    ensures -v <= Sign(b) * v <= v
  {
  }

  lemma LastDigitIsOne(q: int, low: int, d: int, u: int)
    requires q >= 3 && q == low + d * u && (d == 1 || d == -1) && low <= u + 1
    ensures d == 1
  {
  }
}
