// The multiples of P that Miller's algorithm for q = 2^a +- 2^b +- 1 meets.
module SolinasPoints {
  import opened NumberTheory
  import opened Powers
  import opened Bits
  import opened EllipticCurve
  import opened PointGroup
  import opened Curves
  import opened ScalarMul
  import opened Miller

  ghost predicate SolinasOrder(a: int, b: int, q: Pos) {
    q == SolinasValue(a, b) && a != 0 && Abs(b) + 1 < Abs(a) && (b != 0 ==> Abs(b) >= 2)
  }

  // The exponents that curve_init finds, or the zeros that it leaves for other q.
  ghost predicate SolinasPair(a: int, b: int, q: Pos) {
    SolinasOrder(a, b, q) || (a == 0 && b == 0)
  }

  // curve_init leaves such a pair for every odd q >= 3.
  lemma CurveHasPair(c: Curve)
    requires c.q % 2 == 1 && c.q >= 3 && c.SolinasOk()
    ensures SolinasPair(c.solinasa, c.solinasb, c.q) && Abs(c.solinasa) <= BitLen(c.q)
    ensures DigitCount(c.q, BitLen(c.q) + 1) <= 3 ==> SolinasOrder(c.solinasa, c.solinasb, c.q)
  {
    hide DigitCount, SolinasValue, BitLen;
  }

  // What the pairing asks of the curve and of its first argument: P on E/F_p of
  // order q, q dividing p + 1, and the exponents as curve_init leaves them.
  ghost predicate PairingSetting(c: Curve, P: Pt)
    reads c
  {
    && c.Valid() && GroupLaw(c.p) && c.p % 4 == 3 && (c.p + 1) % c.q == 0 && HasOrder(P, c.q, c.p)
    && SolinasPair(c.solinasa, c.solinasb, c.q) && Abs(c.solinasa) <= BitLen(c.q)
  }

  lemma P2Even(i: nat)
    requires i > 0
    ensures P2(i) % 2 == 0
  {
    P2Positive(i - 1);
  }

  lemma SolinasOdd(a: int, b: int, q: Pos)
    requires SolinasOrder(a, b, q)
    ensures q % 2 == 1
  {
    P2Even(Abs(a));
    if b != 0 { P2Even(Abs(b)); }
    hide IPow;
  }

  lemma ExponentSizes(a: int, b: int, q: Pos)
    requires SolinasOrder(a, b, q) && b != 0
    ensures P2(Abs(b)) >= 4 && P2(Abs(a)) >= 4 * P2(Abs(b))
    ensures q == P2(Abs(a)) + Sign(b) * P2(Abs(b)) + Sign(a)
  {
    P2Grows(0, 1); P2Grows(1, 2);
    P2Zero(); P2Positive(0); P2Positive(1);
    if Abs(b) > 2 { P2Grows(2, Abs(b)); }
    P2Positive(Abs(b));
    if Abs(b) + 2 < Abs(a) { P2Grows(Abs(b) + 2, Abs(a)); }
    P2Positive(Abs(b) + 1);
    hide IPow;
  }

  lemma SumsClear(u: int, w: int, s: int, e: int, q: Pos)
    requires (s == 1 || s == -1) && (e == 1 || e == -1) && w >= 4 && u >= 4 * w && q == u + e * w + s
    ensures !Cong(u, 0, q) && !Cong(e * w, 0, q) && !Cong(u, e * w, q) && !Cong(u + e * w, 0, q)
  {
    CanonicalNonZero(1, q);
    CanonicalNonZero(w, q);
    if e == 1 {
      CanonicalNonZero(u, q);
      CanonicalNonZero(u - w, q);
    } else {
      CongIntro(u + w, 2 * w - s, 1, q);
      CanonicalNonZero(2 * w - s, q);
      CongIntro(u, w - s, 1, q);
      CanonicalNonZero(w - s, q);
    }
    CongIntro(u + e * w, -s, 1, q);
    CongSub(u, e * w, q);
    if Cong(-s, 0, q) { NegateZero(-s, q); }
    if Cong(e * w, 0, q) { NegateZero(e * w, q); }
  }

  lemma NegateZero(x: int, q: Pos)
    requires Cong(x, 0, q)
    ensures Cong(-x, 0, q)
  {
    CongAdd(0, 0, x, 0, q);
  }

  // The chord between 2^a P and +-2^b P is a proper one.
  lemma ProperChord(a: int, b: int, P: Pt, q: Pos, p: Pos)
    requires GroupLaw(p) && HasOrder(P, q, p) && SolinasOrder(a, b, q) && b != 0
    ensures var S, T := Times(P2(Abs(a)), P, p), Shifted(b, P, p);
            S.A? && T.A? && OnCurve(S, p) && OnCurve(T, p) && S.x != T.x && Tail(a, b, P, p) == Plus(S, T, p)
  {
    hide Times, HasOrder, Cong, IPow, SolinasValue, Plus, OnCurve, Associative, Prime;
    ExponentSizes(a, b, q);
    hide SolinasOrder;
    OrderOf(0, P, q, p);
    SumsClear(P2(Abs(a)), P2(Abs(b)), Sign(a), Sign(b), q);
    ChordSafe(P2(Abs(a)), Sign(b) * P2(Abs(b)), P, q, p);
    TimesAdd(P2(Abs(a)), Sign(b) * P2(Abs(b)), P, p);
  }

  // For b < 0 the second point of the chord is the opposite of 2^|b| P.
  lemma ShiftedIs(b: int, P: Pt, p: Pos)
    requires GroupLaw(p) && OnCurve(P, p) && b != 0
    ensures Shifted(b, P, p) == if b < 0 then Neg(Times(P2(Abs(b)), P, p), p) else Times(P2(Abs(b)), P, p)
  {
    NegTimes(P2(Abs(b)), P, p);
    assert -1 * P2(Abs(b)) == -P2(Abs(b)) && 1 * P2(Abs(b)) == P2(Abs(b));
  }

  // The last point is P or -P, because q P = O.
  lemma TailIsP(a: int, b: int, P: Pt, q: Pos, p: Pos)
    requires GroupLaw(p) && HasOrder(P, q, p) && SolinasPair(a, b, q)
    ensures Tail(a, b, P, p).A? && P.A? && Tail(a, b, P, p).x == P.x
    ensures b == 0 ==> Tail(a, b, P, p) == Times(P2(Abs(a)), P, p)
  {
    hide Times, HasOrder, IPow, Cong, SolinasOrder, Plus, Associative, Prime;
    OrderOf(1, P, q, p);
    TimesOne(P, p);
    NegTimes(1, P, p);
    CanonicalNonZero(1, q);
    if SolinasOrder(a, b, q) {
      TailCong(a, b, q);
      TimesEqual(P2(Abs(a)) + Sign(b) * P2(Abs(b)), -Sign(a), P, q, p);
    } else {
      P2Zero();
    }
  }

  lemma TailCong(a: int, b: int, q: Pos)
    requires SolinasOrder(a, b, q)
    ensures Cong(P2(Abs(a)) + Sign(b) * P2(Abs(b)), -Sign(a), q)
    ensures b == 0 ==> P2(Abs(a)) + Sign(b) * P2(Abs(b)) == P2(Abs(a))
    ensures Sign(a) == 1 || Sign(a) == -1
  {
    CongIntro(P2(Abs(a)) + Sign(b) * P2(Abs(b)), -Sign(a), 1, q) by { hide IPow; }
    if b == 0 { assert 0 * P2(Abs(b)) == 0; }
  }
}
