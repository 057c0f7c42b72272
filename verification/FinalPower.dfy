// tate_power: the final exponentiation of the Tate pairing.
module FinalPower {
  import opened NumberTheory
  import opened Powers
  import opened Fp2
  import opened Curves

  lemma ProductNonZero(x: Gauss, y: Gauss, p: Pos)
    requires Prime(p) && p % 4 == 3 && !CongG(x, ZERO, p) && !CongG(y, ZERO, p)
    ensures !CongG(Mul(x, y), ZERO, p)
  {
    if CongG(Mul(x, y), ZERO, p) {
      assert Mul(ZERO, y) == ZERO;
      QuotientUnique(x, ZERO, y, p);
    }
  }

  lemma {:induction false} PowNonZero(x: Gauss, n: nat, p: Pos)
    requires Prime(p) && p % 4 == 3 && !CongG(x, ZERO, p)
    ensures !CongG(Pow(x, n), ZERO, p)
  {
    hide Mul, Red;
    if n == 0 {
      OneNotZero(p);
    } else {
      PowNonZero(x, n - 1, p);
      ProductNonZero(x, Pow(x, n - 1), p);
    }
  }

  lemma OneNotZero(p: Pos)
    requires Prime(p)
    ensures !CongG(ONE, ZERO, p)
  {
    ModIntro(0, 0, 0, p); ModIntro(1, 0, 1, p);
  }

  lemma PowOfZero(x: Gauss, n: nat, p: Pos)
    requires CongG(x, ZERO, p) && n > 0
    ensures CongG(Pow(x, n), ZERO, p)
  {
    CongGMul(x, ZERO, Pow(x, n - 1), Pow(x, n - 1), p);
    assert Mul(ZERO, Pow(x, n - 1)) == ZERO;
  }

  // conj(t) / t is t^(p-1), because conj is the p-th power.
  lemma ConjugateQuotient(t: Gauss, r: Gauss, p: Pos)
    requires Prime(p) && p % 4 == 3 && !CongG(t, ZERO, p)
    requires CongG(Mul(r, t), Conj(t), p)
    ensures CongG(r, Pow(t, p - 1), p)
  {
    Frobenius(t, p);
    hide Rem, Mul, Conj;
    PowAdd(t, p - 1, 1);
    PowSmall(t);
    QuotientUnique(r, Pow(t, p - 1), t, p);
  }

  // Raising to (p + 1) / q and dividing the conjugate by the result raises to
  // (p^2 - 1) / q, for every argument.
  method TatePower(res: Elem, c: Curve)
    requires c.Valid() && Prime(c.p) && c.p % 4 == 3 && c.p1onq > 0
    modifies res
    ensures c.tatepwr == (c.p - 1) * ((c.p + 1) / c.q)
    ensures res.Val() == Red(Pow(old(res.Val()), c.tatepwr), c.p)
  {
    hide Rem, Mul, Pow, Red, Canonical;
    ghost var v := res.Val();
    var t0 := new Elem();
    t0.SetPow(res, c.p1onq, c.p);
    res.a := t0.a;
    res.b := c.p - t0.b;
    ghost var conj := res.Val();
    res.SetDiv(res, t0, c.p);
    TatePowerCorrect(v, t0.Val(), conj, res.Val(), c.p1onq, c.p);
  }

  lemma TatePowerCorrect(v: Gauss, t: Gauss, conj: Gauss, r: Gauss, k: nat, p: Pos)
    requires Prime(p) && p % 4 == 3 && k > 0
    requires t == Red(Pow(v, k), p) && conj == G(t.a, p - t.b) && Canonical(r, p)
    requires !CongG(t, ZERO, p) ==> CongG(Mul(r, t), conj, p)
    requires t == ZERO ==> r == ZERO
    ensures (p - 1) * k >= 0 && r == Red(Pow(v, (p - 1) * k), p)
  {
    hide Rem, Mul, Pow, Red, Canonical;
    CongGRed(Pow(v, k), p);
    assert (p - 1) * k == k * (p - 1) && k * (p - 1) > 0;
    if CongG(v, ZERO, p) {
      PowOfZero(v, k, p);
      PowOfZero(v, (p - 1) * k, p);
      CanonicalZero(Pow(v, k), p);
    } else {
      PowNonZero(v, k, p);
      ConjCong(t, p);
      ConjugateQuotient(t, r, p);
      CongGPow(t, Pow(v, k), p - 1, p);
      PowPow(v, k, p - 1);
    }
    CanonicalIsRed(r, Pow(v, (p - 1) * k), p);
  }

  lemma CanonicalZero(x: Gauss, p: Pos)
    requires CongG(x, ZERO, p)
    ensures Red(x, p) == ZERO
  {
    ModIntro(0, 0, 0, p);
  }

  lemma ConjCong(t: Gauss, p: Pos)
    ensures CongG(G(t.a, p - t.b), Conj(t), p)
  {
    CongIntro(p - t.b, -t.b, 1, p);
  }

  // ----- consequences -----

  // A factor from F_p disappears in the final exponentiation.
  lemma ScalarKilled(c: int, v: Gauss, n: nat, p: Pos)
    requires Prime(p) && !Cong(c, 0, p) && n % (p - 1) == 0
    ensures CongG(Pow(Scale(c, v), n), Pow(v, n), p)
  {
    hide Rem, Mul, Pow, IPow;
    RealFactor(v, c); MulComm(v, G(c, 0));
    PowMul(G(c, 0), v, n);
    PowReal(c, n);
    ExponentOne(c, n, p);
    CongGMul(G(IPow(c, n), 0), ONE, Pow(v, n), Pow(v, n), p);
    MulOne(Pow(v, n));
  }

  lemma ExponentOne(c: int, n: nat, p: Pos)
    requires Prime(p) && !Cong(c, 0, p) && n % (p - 1) == 0
    ensures Cong(IPow(c, n), 1, p)
  {
    hide Rem, IPow;
    var k := n / (p - 1);
    assert n == (p - 1) * k;
    Fermat(c, p);
    IPowPow(c, p - 1, k);
    CongPow(IPow(c, p - 1), 1, k, p);
    OnePow(k);
  }

  // The group of the pairing's values: everything non-zero lands on a q-th root
  // of unity.
  lemma RootOfUnity(v: Gauss, k: nat, q: nat, p: Pos)
    requires Prime(p) && p % 4 == 3 && !CongG(v, ZERO, p) && k * q == p + 1
    ensures (p - 1) * k >= 0 && CongG(Pow(Pow(v, (p - 1) * k), q), ONE, p)
  {
    hide Rem, Mul, Pow;
    var n := (p - 1) * k;
    assert (p - 1) * k * q == (p - 1) * (p + 1) by { assert (p - 1) * k * q == (p - 1) * (k * q); }
    PowPow(v, n, q);
    PowPow(v, p + 1, p - 1);
    assert (p + 1) * (p - 1) == (p - 1) * (p + 1);
    NormIsPower(v, p);
    CongGPow(Pow(v, p + 1), G(Norm(v), 0), p - 1, p);
    PowReal(Norm(v), p - 1);
    NormInvertible(v, p);
    PrimeInvertible(Norm(v), p);
    Fermat(Norm(v), p);
  }

  // v^(p+1) is the norm of v, an element of F_p.
  lemma NormIsPower(v: Gauss, p: Pos)
    requires Prime(p) && p % 4 == 3
    ensures CongG(Pow(v, p + 1), G(Norm(v), 0), p)
  {
    Frobenius(v, p);
    ConjMul(v, v);
    hide Rem, Mul, Conj;
    CongGMul(v, v, Pow(v, p), Conj(v), p);
  }
}
