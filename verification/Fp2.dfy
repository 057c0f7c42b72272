// fp2.c: arithmetic in F_p and F_p^2 with in-place results.  Destination and
// operands may be the same object; every contract speaks of the operands' old
// values, so it covers all aliasing.
module Fp2 {
  import opened NumberTheory
  import opened Powers
  import opened Bits

  const WINDOW := 5
  const WINDOW_POWER := 15

  // ----- F_p on plain integers -----

  method ZpMul(a: int, b: int, p: Pos) returns (x: int)
    ensures x == Rem(a * b, p)
  {
    x := a * b;
    x := Rem(x, p);
  }

  method ZpAdd(a: int, b: int, p: Pos) returns (x: int)
    ensures Cong(x, a + b, p)
    ensures 0 <= a < p && 0 <= b < p ==> 0 <= x < p
  {
    x := a + b;
    if x >= p {
      x := x - p;
      CongIntro(x, a + b, -1, p);
    }
  }

  // The destination keeps its old value x0 when b is zero.
  method ZpNeg(x0: int, b: int, p: Pos) returns (x: int)
    ensures b != 0 ==> x == p - b && Cong(x, -b, p)
    ensures b == 0 ==> x == x0
  {
    x := x0;
    if b != 0 {
      x := p - b;
      CongIntro(x, -b, 1, p);
    }
  }

  method ZpSub(a: int, b: int, p: Pos) returns (x: int)
    ensures Cong(x, a - b, p)
    ensures 0 <= a < p && 0 <= b < p ==> 0 <= x < p
  {
    if a >= b {
      x := a - b;
    } else {
      x := a - b;
      x := x + p;
      CongIntro(x, a - b, 1, p);
    }
  }

  // ----- F_p^2 -----

  predicate Canonical(x: Gauss, p: Pos) { 0 <= x.a < p && 0 <= x.b < p }

  class Elem {
    var a: int
    var b: int

    constructor ()
      ensures Val() == ZERO
    {
      a, b := 0, 0;
    }

    function Val(): Gauss
      reads this
    {
      G(a, b)
    }

    method Set(y: Elem)
      modifies this
      ensures Val() == old(y.Val())
    {
      a, b := y.a, y.b;
    }

    method SetZero()
      modifies this
      ensures Val() == ZERO
    {
      a, b := 0, 0;
    }

    method SetOne()
      modifies this
      ensures Val() == ONE
    {
      a, b := 1, 0;
    }

    // A zero component becomes p, not 0.
    method SetNeg(x: Elem, p: Pos)
      modifies this
      ensures Val() == G(p - old(x.a), p - old(x.b))
      ensures CongG(Val(), Sub(ZERO, old(x.Val())), p)
    {
      CongIntro(p - x.a, 0 - x.a, 1, p);
      CongIntro(p - x.b, 0 - x.b, 1, p);
      a := p - x.a;
      b := p - x.b;
    }

    method SetAdd(x: Elem, y: Elem, p: Pos)
      modifies this
      ensures CongG(Val(), Add(old(x.Val()), old(y.Val())), p)
      ensures Canonical(old(x.Val()), p) && Canonical(old(y.Val()), p) ==> Canonical(Val(), p)
    {
      a := ZpAdd(x.a, y.a, p);
      b := ZpAdd(x.b, y.b, p);
    }

    method SetSub(x: Elem, y: Elem, p: Pos)
      modifies this
      ensures CongG(Val(), Sub(old(x.Val()), old(y.Val())), p)
      ensures Canonical(old(x.Val()), p) && Canonical(old(y.Val()), p) ==> Canonical(Val(), p)
    {
      a := ZpSub(x.a, y.a, p);
      b := ZpSub(x.b, y.b, p);
    }

    // The imaginary component of the destination is never written.
    method SetSubUi(x: Elem, n: nat, p: Pos)
      modifies this
      ensures Val() == G(Rem(old(x.a) - n, p), old(b))
    {
      a := x.a - n;
      a := Rem(a, p);
    }

    method SetSqr(x: Elem, p: Pos)
      modifies this
      ensures Val() == Red(Mul(old(x.Val()), old(x.Val())), p)
    {
      var t0, t1 := x.a - x.b, x.a + x.b;
      t0 := t0 * t1;
      t1 := x.a * x.b;
      SquareTrick(x.a, x.b);
      b := 2 * t1;
      b := Rem(b, p);
      a := Rem(t0, p);
    }

    method SetMulMpz(x: Elem, c: int, p: Pos)
      modifies this
      ensures Val() == Red(Scale(c, old(x.Val())), p)
    {
      hide Rem;
      assert x.a * c == c * x.a && x.b * c == c * x.b;
      a := ZpMul(x.a, c, p);
      b := ZpMul(x.b, c, p);
    }

    method SetMul(x: Elem, y: Elem, p: Pos)
      modifies this
      ensures Val() == Red(Mul(old(x.Val()), old(y.Val())), p)
    {
      var t0, t1 := x.a * y.a, x.b * y.b;
      t0 := t0 - t1;
      t1 := x.a * y.b;
      var t2 := x.b * y.a;
      b := t1 + t2;
      b := Rem(b, p);
      a := Rem(t0, p);
    }

    // For a non-zero x the result is its field inverse; for zero it is 0.
    method SetInv(x: Elem, p: Pos)
      modifies this
      ensures Canonical(Val(), p)
      ensures Prime(p) && p % 4 == 3 && !CongG(old(x.Val()), ZERO, p) ==>
                CongG(Mul(Val(), old(x.Val())), ONE, p)
      ensures CongG(old(x.Val()), ZERO, p) ==> Val() == ZERO
    {
      ghost var v := x.Val();
      var t0, t1 := x.a * x.a, x.b * x.b;
      t0 := t0 + t1;
      var ok, t := MpzInvert(t0, p);
      MulConjParts(ONE, v, t);
      b := -(t * x.b);
      b := Rem(b, p);
      a := t * x.a;
      a := Rem(a, p);
      QuotientSpec(ONE, v, ok, t, p);
      if CongG(v, ZERO, p) { QuotientByZero(ONE, v, t, p); }
    }

    // For a non-zero y the result is the field quotient x / y; for zero it is 0,
    // whatever the failed inversion has left behind.
    method SetDiv(x: Elem, y: Elem, p: Pos)
      modifies this
      ensures Canonical(Val(), p)
      ensures Prime(p) && p % 4 == 3 && !CongG(old(y.Val()), ZERO, p) ==>
                CongG(Mul(Val(), old(y.Val())), old(x.Val()), p)
      ensures CongG(old(y.Val()), ZERO, p) ==> Val() == ZERO
    {
      hide Rem, Mul, Red, Norm, Scale, Conj, Canonical, Invertible, IsInverse, CongG, Prime;
      ghost var u, v := x.Val(), y.Val();
      var t0, t1 := y.a * y.a, y.b * y.b;
      t0 := t0 + t1;
      NormParts(v);
      var ok, t := MpzInvert(t0, p);
      t0 := x.a * y.a;
      var t2 := x.b * y.b;
      t0 := t0 + t2;
      t2 := x.b * y.a;
      var t3 := x.a * y.b;
      t2 := t2 - t3;
      b := t * t2;
      b := Rem(b, p);
      a := t * t0;
      a := Rem(a, p);
      RedParts(u, v, t, p);
      QuotientSpec(u, v, ok, t, p);
      if CongG(v, ZERO, p) { QuotientByZero(u, v, t, p); }
    }

    // Sliding-window exponentiation.  The table slots g[1], g[2] and g[j] for odd
    // j up to 2 * WINDOW_POWER + 1 are the only ones created.
    method SetPow(x: Elem, n: nat, p: Pos)
      modifies this
      ensures Val() == Red(Pow(old(x.Val()), n), p)
    {
      hide Rem, Red, Mul, Pow, CongG, Shift, Bit, BitLen;
      ghost var v := x.Val();
      var g := new Elem?[2 * WINDOW_POWER + 2];
      PowerTable(g, x, p);
      var m := BitLen(n) - 1;
      PowerStart(v, n, p);

      SetOne();
      while m >= 0
        invariant -1 <= m < BitLen(n)
        invariant CongG(Val(), Pow(v, Shift(n, m + 1)), p)
        invariant m < BitLen(n) - 1 ==> Canonical(Val(), p)
        invariant TableHolds(g, v, p) && this !in g[..]
      {
        ShiftStep(n, m);
        if Bit(n, m) == 0 {
          SquareInPlace(v, Shift(n, m + 1), p);
          m := m - 1;
        } else {
          var l := m - WINDOW + 1;
          if l < 0 { l := 0; }
          l := Scan1(n, l, m);
          var j := WindowSquarings(n, m, l, v, p);
          assert IsPower(g[j], j, v, p);
          MultiplyStep(Val(), g[j].Val(), v, Shift(n, l) - j, j, p);
          SetMul(this, g[j], p);
          m := l - 1;
        }
      }
      CanonicalIsRed(Val(), Pow(v, n), p);
    }

    // One squaring for each bit of the window m..l, collecting the bits in j.
    method WindowSquarings(n: nat, m: nat, l: nat, ghost v: Gauss, p: Pos) returns (j: nat)
      requires l <= m < l + WINDOW && Bit(n, m) == 1 && Bit(n, l) == 1
      requires CongG(Val(), Pow(v, Shift(n, m + 1)), p)
      modifies this
      ensures j % 2 == 1 && j <= 2 * WINDOW_POWER + 1 && j <= Shift(n, l)
      ensures CongG(Val(), Pow(v, Shift(n, l) - j), p) && Canonical(Val(), p)
    {
      hide Rem, Red, Mul, Pow, Shift, Bit, BitLen;
      j := 1;
      ghost var e: nat := Shift(n, m + 1);      // the exponent reached so far
      ShiftStep(n, m);
      SquareInPlace(v, e, p);
      e := 2 * e;
      var k := m - 1;
      while k >= l
        invariant l - 1 <= k < m
        invariant e + j == Shift(n, k + 1)
        invariant 1 <= j && (if k == m - 1 then j < 2 else if k == m - 2 then j < 4
                             else if k == m - 3 then j < 8 else if k == m - 4 then j < 16 else j < 32)
        invariant j % 2 == Bit(n, k + 1)
        invariant CongG(Val(), Pow(v, e), p) && Canonical(Val(), p)
      {
        ShiftStep(n, k);
        j := 2 * j;
        if Bit(n, k) == 1 { j := j + 1; }
        SquareInPlace(v, e, p);
        e := 2 * e;
        k := k - 1;
      }
    }

    // The squaring that the exponentiation loop has written out in line.
    method SquareInPlace(ghost v: Gauss, ghost e: nat, p: Pos)
      requires CongG(Val(), Pow(v, e), p)
      modifies this
      ensures CongG(Val(), Pow(v, 2 * e), p) && Canonical(Val(), p)
      ensures Val() == Red(Mul(old(Val()), old(Val())), p)
    {
      ghost var r := Val();
      var t0, t1 := a - b, a + b;
      t0 := t0 * t1;
      t1 := a * b;
      SquareTrick(a, b);
      b := 2 * t1;
      b := Rem(b, p);
      a := Rem(t0, p);
      SquareStep(r, v, e, p);
    }

    // mpz_size is zero exactly for zero.
    predicate IsZero()
      reads this
    {
      a == 0 && b == 0
    }

    predicate Equal(y: Elem)
      reads this, y
    {
      a == y.a && b == y.b
    }
  }

  // g[j] = v^j for every odd index below n.
  ghost predicate Filled(g: array<Elem?>, n: nat, v: Gauss, p: Pos)
    reads g, g[..]
  {
    forall j: int :: 0 <= j < g.Length && j < n && j % 2 == 1 ==> IsPower(g[j], j, v, p)
  }

  ghost predicate IsPower(e: Elem?, j: nat, v: Gauss, p: Pos)
    reads e
  {
    e != null && CongG(e.Val(), Pow(v, j), p)
  }

  ghost predicate TableHolds(g: array<Elem?>, v: Gauss, p: Pos)
    reads g, g[..]
  {
    g.Length == 2 * WINDOW_POWER + 2 && Filled(g, g.Length, v, p)
  }

  // Fills the table of odd powers of x; x itself is not written.
  method PowerTable(g: array<Elem?>, x: Elem, p: Pos)
    requires g.Length == 2 * WINDOW_POWER + 2
    modifies g
    ensures TableHolds(g, x.Val(), p)
    ensures forall j :: 0 <= j < g.Length ==> g[j] == null || fresh(g[j])
  {
    hide Filled, IsPower;
    ghost var v := x.Val();
    FirstEntries(g, x, p);
    var i := 1;
    while i <= WINDOW_POWER
      invariant 1 <= i <= WINDOW_POWER + 1
      invariant IsPower(g[2], 2, v, p) && Filled(g, 2 * i, v, p)
      invariant forall j :: 0 <= j < g.Length ==> g[j] == null || fresh(g[j])
    {
      NextEntry(g, i, v, p);
      i := i + 1;
    }
  }

  method FirstEntries(g: array<Elem?>, x: Elem, p: Pos)
    requires g.Length == 2 * WINDOW_POWER + 2
    modifies g
    ensures IsPower(g[2], 2, x.Val(), p) && Filled(g, 2, x.Val(), p)
    ensures forall j :: 0 <= j < g.Length ==> g[j] == null || fresh(g[j])
  {
    hide Rem, Red, Mul, Pow, CongG;
    FirstPowers(x.Val(), p);
    forall j | 0 <= j < g.Length { g[j] := null; }
    var first := new Elem();
    first.Set(x);
    var square := new Elem();
    square.SetMul(x, x, p);
    g[1] := first;
    g[2] := square;
  }

  method NextEntry(g: array<Elem?>, i: nat, ghost v: Gauss, p: Pos)
    requires g.Length == 2 * WINDOW_POWER + 2 && 1 <= i <= WINDOW_POWER
    requires IsPower(g[2], 2, v, p) && Filled(g, 2 * i, v, p)
    modifies g
    ensures IsPower(g[2], 2, v, p) && Filled(g, 2 * i + 2, v, p)
    ensures forall j :: 0 <= j < g.Length ==> g[j] == old(g[j]) || fresh(g[j])
  {
    hide Rem, Red, Mul, Pow, CongG;
    var j := 2 * i + 1;
    assert IsPower(g[j - 2], j - 2, v, p);
    var e := NextPower(g[j - 2], g[2], v, j - 2, p);
    g[j] := e;
  }

  lemma PowerStart(v: Gauss, n: nat, p: Pos)
    ensures CongG(ONE, Pow(v, Shift(n, BitLen(n))), p) && Shift(n, 0) == n
  {
    LeadingBit(n);
  }

  lemma FirstPowers(v: Gauss, p: Pos)
    ensures CongG(v, Pow(v, 1), p) && CongG(Red(Mul(v, v), p), Pow(v, 2), p)
  {
    PowSmall(v);
    CongGRed(Mul(v, v), p);
  }

  // The next odd power from the last one and the square.
  method NextPower(last: Elem, square: Elem, ghost v: Gauss, ghost d: nat, p: Pos) returns (e: Elem)
    requires CongG(last.Val(), Pow(v, d), p) && CongG(square.Val(), Pow(v, 2), p)
    ensures fresh(e) && CongG(e.Val(), Pow(v, d + 2), p)
  {
    hide Rem, Red, Mul, Pow, CongG;
    MultiplyStep(last.Val(), square.Val(), v, d, 2, p);
    e := new Elem();
    e.SetMul(last, square, p);
  }

  lemma MultiplyStep(r: Gauss, s: Gauss, v: Gauss, d: nat, e: nat, p: Pos)
    requires CongG(r, Pow(v, d), p) && CongG(s, Pow(v, e), p)
    ensures CongG(Red(Mul(r, s), p), Pow(v, d + e), p) && Canonical(Red(Mul(r, s), p), p)
  {
    var w := Mul(r, s);
    CongMod(w.a, p); CongMod(w.b, p);
    CongGRed(w, p);
    hide Rem, Mul;
    CongGMul(r, Pow(v, d), s, Pow(v, e), p);
    PowAdd(v, d, e);
  }

  lemma SquareStep(r: Gauss, v: Gauss, e: nat, p: Pos)
    requires CongG(r, Pow(v, e), p)
    ensures CongG(Red(Mul(r, r), p), Pow(v, 2 * e), p) && Canonical(Red(Mul(r, r), p), p)
  {
    MultiplyStep(r, r, v, e, e, p);
  }

  lemma CanonicalRed(x: Gauss, p: Pos)
    ensures Canonical(Red(x, p), p) && CongG(Red(x, p), x, p)
  {
    CongGRed(x, p);
  }

  lemma CanonicalIsRed(x: Gauss, y: Gauss, p: Pos)
    requires Canonical(x, p) && CongG(x, y, p)
    ensures x == Red(y, p)
  {
    ModIntro(x.a, 0, x.a, p); ModIntro(x.b, 0, x.b, p);
  }

  lemma SquareTrick(a: int, b: int)
    ensures Mul(G(a, b), G(a, b)) == G((a - b) * (a + b), 2 * (a * b))
  {
  }

  // ----- the norm -----

  lemma {:induction false} OddPowerOfNegation(c: int, n: nat)
    requires n % 2 == 1
    ensures IPow(-c, n) == -IPow(c, n)
  {
    if n > 1 {
      OddPowerOfNegation(c, n - 2);
      IPowAdd(c, 2, n - 2); IPowAdd(-c, 2, n - 2);
      NegateTwo(c, IPow(-c, n - 2), IPow(c, n - 2));
    } else {
      ISmall(c); ISmall(-c);
    }
  }

  lemma ISmall(c: int)
    ensures IPow(c, 1) == c && IPow(c, 2) == c * c
  {
    assert IPow(c, 0) == 1;
  }

  lemma NegateTwo(c: int, x: int, y: int)
    requires x == -y
    ensures IPow(-c, 2) * x == -(IPow(c, 2) * y)
  {
    ISmall(c); ISmall(-c);
    hide IPow;
    assert (-c) * (-c) == c * c;
    assert (c * c) * (-y) == -((c * c) * y);
  }

  // -1 is not a square modulo a prime p = 3 mod 4, so the norm has no
  // non-trivial zero.
  lemma NormZero(a: int, b: int, p: Pos)
    requires Prime(p) && p % 4 == 3 && Cong(a * a + b * b, 0, p)
    ensures Cong(a, 0, p) && Cong(b, 0, p)
  {
    hide IPow, Rem;
    var h := (p - 1) / 2;
    CongAdd(a * a + b * b, 0, b * b, b * b, p);
    assert Cong(a * a, -(b * b), p);
    if Cong(b, 0, p) {
      CongMul(b, 0, b, b, p);
      CongAdd(a * a + b * b, 0, b * b, 0, p);
      EuclidLemma(a, a, p);
    } else {
      if Cong(a, 0, p) {
        CongMul(a, 0, a, a, p);
        CongAdd(a * a + b * b, 0, a * a, 0, p);
        EuclidLemma(b, b, p);
      }
      Fermat(a, p); Fermat(b, p);
      CongPow(a * a, -(b * b), h, p);
      OddPowerOfNegation(b * b, h);
      HalfPower(a, h); HalfPower(b, h);
      assert 2 * h == p - 1;
      CongAdd(IPow(a, p - 1), 1, IPow(b, p - 1), 1, p);
      CongAdd(IPow(a * a, h), -IPow(b * b, h), IPow(b * b, h), IPow(b * b, h), p);
      TwoNotZero(p);
    }
  }

  lemma HalfPower(a: int, h: nat)
    ensures IPow(a * a, h) == IPow(a, 2 * h)
  {
    IPowPow(a, 2, h);
    ISmall(a);
  }

  lemma TwoNotZero(p: Pos)
    requires p > 2
    ensures !Cong(2, 0, p) && !Cong(1, 0, p)
  {
    ModIntro(2, 0, 2, p); ModIntro(0, 0, 0, p); ModIntro(1, 0, 1, p);
  }

  lemma NormInvertible(x: Gauss, p: Pos)
    requires Prime(p) && p % 4 == 3 && !CongG(x, ZERO, p)
    ensures Invertible(Norm(x), p)
  {
    if Cong(Norm(x), 0, p) { NormZero(x.a, x.b, p); }
    PrimeInvertible(Norm(x), p);
  }

  lemma MulConjParts(u: Gauss, v: Gauss, t: int)
    ensures Scale(t, Mul(u, Conj(v))) == G(t * (u.a * v.a + u.b * v.b), t * (u.b * v.a - u.a * v.b))
    ensures u == ONE ==> Scale(t, Mul(u, Conj(v))) == G(t * v.a, -(t * v.b))
  {
    assert u.b * -v.b == -(u.b * v.b) && u.a * -v.b == -(u.a * v.b);
    assert t * -v.b == -(t * v.b);
  }

  lemma NormParts(v: Gauss)
    ensures Norm(v) == v.a * v.a + v.b * v.b
  {
  }

  lemma RedParts(u: Gauss, v: Gauss, t: int, p: Pos)
    ensures Red(Scale(t, Mul(u, Conj(v))), p)
         == G(Rem(t * (u.a * v.a + u.b * v.b), p), Rem(t * (u.b * v.a - u.a * v.b), p))
  {
    hide Rem;
    MulConjParts(u, v, t);
  }

  lemma QuotientSpec(u: Gauss, v: Gauss, ok: bool, t: int, p: Pos)
    requires (ok <==> Invertible(Norm(v), p)) && (ok ==> IsInverse(Norm(v), t, p))
    ensures var r := Red(Scale(t, Mul(u, Conj(v))), p);
            && Canonical(r, p)
            && (Prime(p) && p % 4 == 3 && !CongG(v, ZERO, p) ==> CongG(Mul(r, v), u, p))
  {
    var w := Scale(t, Mul(u, Conj(v)));
    CongMod(w.a, p); CongMod(w.b, p);
    CongGRed(w, p);
    hide Rem, Mul, Norm;
    if Prime(p) && p % 4 == 3 && !CongG(v, ZERO, p) {
      NormInvertible(v, p);
      QuotientIsRight(u, v, t, Red(w, p), p);
    }
  }

  lemma QuotientByZero(u: Gauss, v: Gauss, t: int, p: Pos)
    requires CongG(v, ZERO, p)
    ensures Red(Scale(t, Mul(u, Conj(v))), p) == ZERO
  {
    ConjZero(v, p);
    MulZero(u);
    hide Mul, Conj;
    CongGMul(u, u, Conj(v), ZERO, p);
    ScaleZero(t, Mul(u, Conj(v)), p);
  }

  lemma ConjZero(v: Gauss, p: Pos)
    requires CongG(v, ZERO, p)
    ensures CongG(Conj(v), ZERO, p)
  {
    assert Cong(v.a, 0, p) && Cong(v.b, 0, p);
    hide Rem;
    CongAdd(0, 0, v.b, 0, p);
  }

  lemma ScaleZero(t: int, w: Gauss, p: Pos)
    requires CongG(w, ZERO, p)
    ensures Red(Scale(t, w), p) == ZERO
  {
    assert Cong(w.a, 0, p) && Cong(w.b, 0, p);
    ModIntro(0, 0, 0, p);
    CongMul(t, t, w.a, 0, p); CongMul(t, t, w.b, 0, p);
    assert t * 0 == 0;
  }

  // u * conj(v) / norm(v) is u / v.
  lemma QuotientIsRight(u: Gauss, v: Gauss, t: int, r: Gauss, p: Pos)
    requires IsInverse(Norm(v), t, p)
    requires CongG(r, Scale(t, Mul(u, Conj(v))), p)
    ensures CongG(Mul(r, v), u, p)
  {
    hide Rem, Mul, Norm, Scale, Conj, IsInverse;
    var w := Scale(t, Mul(u, Conj(v)));
    CongGMul(r, w, v, v, p);
    assert Mul(w, v) == Scale(t * Norm(v), u) by {
      MulComm(w, v); MulScale(v, t, Mul(u, Conj(v))); MulComm(v, Mul(u, Conj(v)));
      MulAssoc(u, Conj(v), v); MulComm(Conj(v), v); ConjMul(v, v);
      RealFactor(u, Norm(v)); ScaleScale(t, Norm(v), u);
    }
    UnitScale(Norm(v), t, u, p);
  }

  lemma RealFactor(u: Gauss, c: int)
    ensures Mul(u, G(c, 0)) == Scale(c, u)
  {
  }

  lemma ScaleScale(c: int, d: int, u: Gauss)
    ensures Scale(c, Scale(d, u)) == Scale(c * d, u)
  {
    assert c * (d * u.a) == (c * d) * u.a && c * (d * u.b) == (c * d) * u.b;
  }

  // F_p^2 is a field: quotients are unique.
  lemma QuotientUnique(r: Gauss, s: Gauss, v: Gauss, p: Pos)
    requires Prime(p) && p % 4 == 3 && !CongG(v, ZERO, p)
    requires CongG(Mul(r, v), Mul(s, v), p)
    ensures CongG(r, s, p)
  {
    NormInvertible(v, p);
    var t :| IsInverse(Norm(v), t, p);
    CancelRight(r, v, t, p);
    CancelRight(s, v, t, p);
    hide Rem, Mul, Norm;
    CongGMul(Mul(r, v), Mul(s, v), Scale(t, Conj(v)), Scale(t, Conj(v)), p);
  }

  lemma CancelRight(r: Gauss, v: Gauss, t: int, p: Pos)
    requires IsInverse(Norm(v), t, p)
    ensures CongG(Mul(Mul(r, v), Scale(t, Conj(v))), r, p)
  {
    hide Rem, Mul, Norm, Scale, Conj, IsInverse;
    MulAssoc(r, v, Scale(t, Conj(v)));
    NormTimesInverse(v, t);
    RealFactor(r, t * Norm(v));
    UnitScale(Norm(v), t, r, p);
  }

  lemma NormTimesInverse(v: Gauss, t: int)
    ensures Mul(v, Scale(t, Conj(v))) == G(t * Norm(v), 0)
  {
    hide Mul, Norm;
    MulScale(v, t, Conj(v));
    ConjMul(v, v);
  }

  // Scaling by n n^-1 changes nothing.
  lemma UnitScale(n: int, t: int, r: Gauss, p: Pos)
    requires IsInverse(n, t, p)
    ensures CongG(Scale(t * n, r), r, p)
  {
    ModIntro(1, 0, 1, p);
    assert Cong(n * t, 1, p);
    hide Rem;
    CongMul(t * n, 1, r.a, r.a, p);
    CongMul(t * n, 1, r.b, r.b, p);
  }
}
