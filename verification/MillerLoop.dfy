// tate_solinas_miller and tate_pairing: Miller's algorithm with the multiples
// of P kept in projective coordinates.
module MillerLoop {
  import opened NumberTheory
  import opened Powers
  import opened Bits
  import opened EllipticCurve
  import opened PointGroup
  import opened Projective
  import opened Fp2
  import opened Curves
  import opened ScalarMul
  import opened PointAddition
  import opened FinalPower
  import opened Miller
  import opened SolinasPoints
  import opened TateLines

  // After i doublings: v and d are f_(2^i) up to factors from F_p, and (x, y, z)
  // stands for 2^i P.
  ghost predicate Running(i: nat, v: Gauss, d: Gauss, x: int, y: int, z: int, P: Pt, X: Gauss, Y: Gauss, p: Pos) {
    && UpTo(v, Num(i, P, X, Y, p), p) && UpTo(d, Den(i, P, X, p), p)
    && Reps(x, y, z, Times(P2(i), P, p), p)
    && Canonical(d, p)
  }

  lemma RunningStart(P: Pt, X: Gauss, Y: Gauss, p: Pos)
    requires Field(p) && P.A?
    ensures Running(0, ONE, ONE, P.x, P.y, 1, P, X, Y, p)
  {
    P2Zero();
    TimesOne(P, p);
    UpToOne(p);
    CanonicalNonZero(1, p);
  }

  lemma NextDouble(i: nat, P: Pt, q: Pos, p: Pos)
    requires GroupLaw(p) && HasOrder(P, q, p) && q % 2 == 1
    ensures var T := Times(P2(i), P, p);
            T.A? && OnCurve(T, p) && T.y != 0 && !Cong(T.y, 0, p) && Times(P2(i + 1), P, p) == Plus(T, T, p)
  {
    hide Times, Plus, Third, TangentSlope, IPow;
    DoubleStep(i, P, q, p);
    OrderOf(0, P, q, p);
    P2Positive(i);
    TimesTwo(P2(i), P, p);
  }

  // The code's doubling loop, run from the i-th to the end-th doubling.
  method Doublings(v: Elem, vdenom: Elem, Z: Point, Qhat: Point, z0: int, start: nat, end: nat, c: Curve, ghost P: Pt)
    returns (z: int)
    requires PairingSetting(c, P) && start <= end <= Abs(c.solinasa) && !Qhat.infinity
    requires v != vdenom && Z.x != Z.y && {v, vdenom} !! {Z.x, Z.y} && {v, vdenom, Z.x, Z.y} !! {Qhat.x, Qhat.y}
    requires Running(start, v.Val(), vdenom.Val(), Z.x.a, Z.y.a, z0, P, Qhat.x.Val(), Qhat.y.Val(), c.p)
    modifies v, vdenom, Z.x, Z.y
    ensures Running(end, v.Val(), vdenom.Val(), Z.x.a, Z.y.a, z, P, Qhat.x.Val(), Qhat.y.Val(), c.p)
    ensures Z.x.b == old(Z.x.b) && Z.y.b == old(Z.y.b)
  {
    hide Rem, Mul, Red, Cong, Times, UpTo, Reps, Canonical, Num, Den, TangentLine, Vertical, IPow, HasOrder,
         Associative, Prime, SolinasOrder, OnCurve, Plus, BitLen, Running;
    z := z0;
    if start < end { SolinasOdd(c.solinasa, c.solinasb, c.q); }
    var i := start;
    while i < end
      invariant start <= i <= end
      invariant Running(i, v.Val(), vdenom.Val(), Z.x.a, Z.y.a, z, P, Qhat.x.Val(), Qhat.y.Val(), c.p)
      invariant Z.x.b == old(Z.x.b) && Z.y.b == old(Z.y.b)
    {
      z := OneDoubling(v, vdenom, Z, Qhat, z, i, c.p, P, c.q);
      i := i + 1;
    }
  }

  method OneDoubling(v: Elem, vdenom: Elem, Z: Point, Qhat: Point, z0: int, ghost i: nat, p: Pos, ghost P: Pt,
                     ghost q: Pos)
    returns (z: int)
    requires GroupLaw(p) && HasOrder(P, q, p) && q % 2 == 1 && !Qhat.infinity
    requires v != vdenom && Z.x != Z.y && {v, vdenom} !! {Z.x, Z.y} && {v, vdenom, Z.x, Z.y} !! {Qhat.x, Qhat.y}
    requires Running(i, v.Val(), vdenom.Val(), Z.x.a, Z.y.a, z0, P, Qhat.x.Val(), Qhat.y.Val(), p)
    modifies v, vdenom, Z.x, Z.y
    ensures Running(i + 1, v.Val(), vdenom.Val(), Z.x.a, Z.y.a, z, P, Qhat.x.Val(), Qhat.y.Val(), p)
    ensures Z.x.b == old(Z.x.b) && Z.y.b == old(Z.y.b)
  {
    hide Rem, Mul, Red, Add, Sub, Cong, CongG, Times, UpTo, Reps, Canonical, Num, Den, TangentLine, Vertical, IPow,
         HasOrder, Associative, Prime, OnCurve, Plus;
    z := z0;
    ghost var X, Y := Qhat.x.Val(), Qhat.y.Val();
    ghost var n, d := Num(i, P, X, Y, p), Den(i, P, X, p);
    ghost var T := Times(P2(i), P, p);
    NextDouble(i, P, q, p);
    UpToMul(v.Val(), n, v.Val(), n, p);
    UpToMul(vdenom.Val(), d, vdenom.Val(), d, p);
    v.SetSqr(v, p);
    vdenom.SetSqr(vdenom, p);
    PtsGetTangent(v, Qhat, Z, z, p, T, Mul(n, n));
    var x, y;
    x, y, z := ProjDouble(Z.x.a, Z.y.a, z, p);
    Z.x.a, Z.y.a := x, y;
    PtsGetVertical(vdenom, Qhat, Z, z, p, Plus(T, T, p), Mul(d, d));
    NumStep(i, P, X, Y, p);
  }

  lemma NumStep(i: nat, P: Pt, X: Gauss, Y: Gauss, p: Pos)
    ensures Num(i + 1, P, X, Y, p)
         == Mul(Mul(Num(i, P, X, Y, p), Num(i, P, X, Y, p)), TangentLine(Times(P2(i), P, p), X, Y, p))
    ensures Den(i + 1, P, X, p) == Mul(Mul(Den(i, P, X, p), Den(i, P, X, p)), Vertical(Times(P2(i + 1), P, p), X))
  {
    hide Mul, Times, TangentLine, Vertical, IPow;
  }

  // (Z, z) becomes affine.
  method Normalise(Z: Point, z0: int, p: Pos, ghost T: Pt) returns (z: int)
    requires Field(p) && Z.x != Z.y && Z.x.b == 0 && Z.y.b == 0 && OnCurve(T, p) && Reps(Z.x.a, Z.y.a, z0, T, p)
    modifies Z.x, Z.y
    ensures T.A? && Z.x.Val() == G(T.x, 0) && Z.y.Val() == G(T.y, 0) && z == 1
  {
    hide Rem, Cong, Red, Scale, OnCurve, Reps;
    ghost var x, y := Z.x.a, Z.y.a;
    var ok, inv := MpzInvert(z0, p);
    z := inv;
    var temp := ZpMul(z, z, p);
    ghost var z2 := temp;
    Z.x.SetMulMpz(Z.x, temp, p);
    temp := ZpMul(temp, z, p);
    Z.y.SetMulMpz(Z.y, temp, p);
    NormaliseCorrect(x, y, z0, T, ok, z, z2, temp, p);
    z := 1;
  }

  lemma NormaliseCorrect(x: int, y: int, z0: int, T: Pt, ok: bool, z: int, z2: int, z3: int, p: Pos)
    requires Field(p) && OnCurve(T, p) && Reps(x, y, z0, T, p)
    requires (ok <==> Invertible(z0, p)) && (ok ==> IsInverse(z0, z, p))
    requires z2 == Rem(z * z, p) && z3 == Rem(z2 * z, p)
    ensures T.A? && Red(Scale(z2, G(x, 0)), p) == G(T.x, 0) && Red(Scale(z3, G(y, 0)), p) == G(T.y, 0)
  {
    PrimeInvertible(z0, p);
    CongMod(z * z, p); CongMod(z2 * z, p);
    ModIntro(1, 0, 1, p);
    UnscaleBoth(x, y, z0, T, z, z2, z3, p);
    RealRed(z2, x, T.x, p); RealRed(z3, y, T.y, p);
  }

  lemma RealRed(c: int, x: int, t: int, p: Pos)
    requires 0 <= t < p && Cong(x * c, t, p)
    ensures Red(Scale(c, G(x, 0)), p) == G(t, 0)
  {
    ModIntro(0, 0, 0, p);
    assert c * 0 == 0 && c * x == x * c;
    CongMod(x * c, p);
    CongSmall(Rem(x * c, p), t, p);
  }

  // ----- after the doublings -----

  // fb / fbdenom is f_(+-2^|b|) and (x, y) is the point +-2^|b| P, with y not
  // necessarily in canonical form.
  ghost predicate ShiftReady(b: int, fb: Gauss, fbdenom: Gauss, x: Gauss, y: Gauss, P: Pt, X: Gauss, Y: Gauss, p: Pos) {
    var T := Shifted(b, P, p);
    && UpTo(fb, SignedNum(b, P, X, Y, p), p) && UpTo(fbdenom, SignedDen(b, P, X, Y, p), p)
    && T.A? && x == G(T.x, 0) && CongG(y, G(T.y, 0), p)
  }

  // v / d is f_(2^i) up to factors from F_p and (x, y) is 2^i P.
  ghost predicate Reached(i: nat, v: Gauss, d: Gauss, x: Gauss, y: Gauss, P: Pt, X: Gauss, Y: Gauss, p: Pos) {
    var T := Times(P2(i), P, p);
    && T.A? && x == G(T.x, 0) && y == G(T.y, 0)
    && UpTo(v, Num(i, P, X, Y, p), p) && UpTo(d, Den(i, P, X, p), p) && Canonical(d, p)
  }

  // v / d is f_(2^|a| +- 2^|b|) up to factors from F_p and x is the abscissa of
  // 2^|a| P +- 2^|b| P.
  ghost predicate Combined(a: int, b: int, v: Gauss, d: Gauss, x: Gauss, P: Pt, X: Gauss, Y: Gauss, p: Pos) {
    var T := Tail(a, b, P, p);
    && T.A? && x == G(T.x, 0) && Canonical(d, p)
    && UpTo(v, CombinedNum(a, b, P, X, Y, p), p) && UpTo(d, CombinedDen(a, b, P, X, Y, p), p)
  }

  method RememberShift(v: Elem, vdenom: Elem, fb: Elem, fbdenom: Elem, Z: Point, bP: Point, Qhat: Point, c: Curve,
                       ghost P: Pt)
    requires PairingSetting(c, P) && c.solinasb != 0 && !Qhat.infinity && !Z.infinity
    requires fb != fbdenom && bP.x != bP.y && {v, vdenom, Z.x, Z.y, Qhat.x, Qhat.y} !! {fb, fbdenom, bP.x, bP.y}
    requires {fb, fbdenom} !! {bP.x, bP.y} && Z != bP && Qhat != bP
    requires Reached(Abs(c.solinasb), v.Val(), vdenom.Val(), Z.x.Val(), Z.y.Val(), P, Qhat.x.Val(), Qhat.y.Val(), c.p)
    modifies fb, fbdenom, bP, bP.x, bP.y
    ensures ShiftReady(c.solinasb, fb.Val(), fbdenom.Val(), bP.x.Val(), bP.y.Val(), P, Qhat.x.Val(), Qhat.y.Val(), c.p)
    ensures !bP.infinity
  {
    hide Rem, Mul, Red, Cong, Times, UpTo, Canonical, Num, Den, IPow, HasOrder, Associative, Prime, SolinasOrder,
         OnCurve, Plus, BitLen, Shifted;
    ghost var X, Y := Qhat.x.Val(), Qhat.y.Val();
    ghost var n: nat := Abs(c.solinasb);
    ghost var T := Times(P2(n), P, c.p);
    OrderOf(0, P, c.q, c.p);
    ShiftedIs(c.solinasb, P, c.p);
    bP.Set(Z);
    if c.solinasb < 0 {
      fbdenom.Set(v);
      fb.Set(vdenom);
      ghost var v0 := fbdenom.Val();
      TateGetVertical(fbdenom, Qhat, Z, c.p);
      UpToVertical(fbdenom.Val(), v0, Num(n, P, X, Y, c.p), T, X, c.p);
      ghost var y := bP.y.Val();
      bP.y.SetNeg(bP.y, c.p);
      NegatedOrdinate(T, bP.y.Val(), c.p);
    } else {
      fb.Set(v);
      fbdenom.Set(vdenom);
    }
  }

  lemma UpToVertical(v: Gauss, v0: Gauss, n: Gauss, T: Pt, X: Gauss, p: Pos)
    requires Prime(p) && T.A? && UpTo(v0, n, p) && Multiplied(v, v0, Sub(X, G(T.x, 0)), p)
    ensures UpTo(v, Mul(n, Vertical(T, X)), p) && Canonical(v, p)
  {
    UpToFactor(v, v0, n, Vertical(T, X), Vertical(T, X), p) by { UpToCong(Vertical(T, X), Vertical(T, X), p); }
  }

  lemma UpToFactor(v: Gauss, v0: Gauss, n: Gauss, f: Gauss, m: Gauss, p: Pos)
    requires Prime(p) && UpTo(v0, n, p) && UpTo(f, m, p) && Multiplied(v, v0, f, p)
    ensures UpTo(v, Mul(n, m), p)
  {
    hide Mul, Scale;
    UpToMul(v0, n, f, m, p);
    var c :| !Cong(c, 0, p) && CongG(Mul(v0, f), Scale(c, Mul(n, m)), p);
    UpToIntro(v, c, Mul(n, m), p);
  }

  lemma NegatedOrdinate(T: Pt, y: Gauss, p: Pos)
    requires T.A? && CongG(y, Sub(ZERO, G(T.y, 0)), p)
    ensures Neg(T, p).A? && Neg(T, p).x == T.x && CongG(y, G(Neg(T, p).y, 0), p)
  {
    CongMod(-T.y, p);
  }

  // point_add on Z = S and bP = T with an uncorrected ordinate.
  lemma ChordSum(S: Pt, T: Pt, y2: Gauss, infinity: bool, x3: Gauss, y3: Gauss, p: Pos)
    requires Field(p) && p % 4 == 3 && S.A? && T.A? && OnCurve(S, p) && OnCurve(T, p) && S.x != T.x
    requires CongG(y2, G(T.y, 0), p)
    requires FiniteSum(G(S.x, 0), G(S.y, 0), G(T.x, 0), y2, infinity, x3, y3, p)
    ensures !infinity && Plus(S, T, p).A? && x3 == G(Plus(S, T, p).x, 0) && y3 == G(Plus(S, T, p).y, 0)
  {
    hide Rem, Chord, Tangent;
    AddOnCurve(S, T, p);
    DistinctReal(S.x, T.x, p);
    RealChord(S, T, y2, x3, y3, p);
    CanonicalReal(x3, Plus(S, T, p).x, p);
    CanonicalReal(y3, Plus(S, T, p).y, p);
  }

  ghost predicate MillerRatio(res: Gauss, N: Gauss, D: Gauss, p: Pos) {
    exists v, d :: UpTo(v, N, p) && UpTo(d, D, p) && Canonical(d, p) && IsQuotient(res, v, d, p)
  }

  ghost predicate IsQuotient(res: Gauss, v: Gauss, d: Gauss, p: Pos) {
    && (!CongG(d, ZERO, p) ==> CongG(Mul(res, d), v, p))
    && (CongG(d, ZERO, p) ==> res == ZERO)
  }

  // The line through Z and bP and the vertical at their sum.
  method CombineShift(v: Elem, vdenom: Elem, fb: Elem, fbdenom: Elem, Z: Point, bP: Point, Qhat: Point, c: Curve,
                      ghost P: Pt)
    requires PairingSetting(c, P) && c.solinasb != 0 && !Qhat.infinity && !Z.infinity && !bP.infinity
    requires v != vdenom && Z.x != Z.y && {v, vdenom} !! {Z.x, Z.y, bP.x, bP.y, fb, fbdenom, Qhat.x, Qhat.y}
    requires {Z.x, Z.y} !! {bP.x, bP.y, fb, fbdenom, Qhat.x, Qhat.y} && bP.x != bP.y && Z != bP && Z != Qhat
    requires ShiftReady(c.solinasb, fb.Val(), fbdenom.Val(), bP.x.Val(), bP.y.Val(), P, Qhat.x.Val(), Qhat.y.Val(), c.p)
    requires Reached(Abs(c.solinasa), v.Val(), vdenom.Val(), Z.x.Val(), Z.y.Val(), P, Qhat.x.Val(), Qhat.y.Val(), c.p)
    modifies v, vdenom, Z, Z.x, Z.y
    ensures !Z.infinity
    ensures Combined(c.solinasa, c.solinasb, v.Val(), vdenom.Val(), Z.x.Val(), P, Qhat.x.Val(), Qhat.y.Val(), c.p)
  {
    hide Rem, Mul, Red, Add, Sub, Cong, Times, UpTo, Canonical, Num, Den, IPow, HasOrder, Associative, Prime,
         SolinasOrder, OnCurve, Plus, BitLen, Shifted, Tail, SignedNum, SignedDen, ChordLine, Vertical, Multiplied,
         ChordDet, FiniteSum;
    ghost var b := c.solinasb;
    ghost var m: nat := Abs(c.solinasa);
    ghost var X, Y := Qhat.x.Val(), Qhat.y.Val();
    ghost var S, T := Times(P2(m), P, c.p), Shifted(b, P, c.p);
    ghost var N, D := Num(m, P, X, Y, c.p), Den(m, P, X, c.p);
    ProperChord(c.solinasa, b, P, c.q, c.p);
    UpToMul(v.Val(), N, fb.Val(), SignedNum(b, P, X, Y, c.p), c.p);
    UpToMul(vdenom.Val(), D, fbdenom.Val(), SignedDen(b, P, X, Y, c.p), c.p);
    v.SetMul(v, fb, c.p);
    vdenom.SetMul(vdenom, fbdenom, c.p);
    ghost var v1, d1, y2 := v.Val(), vdenom.Val(), bP.y.Val();
    TateGetLine(v, Qhat, Z, bP, c.p);
    ChordIsLine(S, T, y2, X, Y, c.p);
    UpToFactor(v.Val(), v1, Mul(N, SignedNum(b, P, X, Y, c.p)),
               ChordDet(G(S.x, 0), G(S.y, 0), G(T.x, 0), y2, X, Y), ChordLine(S, T, X, Y, c.p), c.p);
    PointAdd(Z, Z, bP, c.p);
    ChordSum(S, T, y2, Z.infinity, Z.x.Val(), Z.y.Val(), c.p);
    TateGetVertical(vdenom, Qhat, Z, c.p);
    UpToVertical(vdenom.Val(), d1, Mul(D, SignedDen(b, P, X, Y, c.p)), Plus(S, T, c.p), X, c.p);
  }

  // The verticals that close the loop and the final division.
  method CloseMiller(res: Elem, v: Elem, vdenom: Elem, Z: Point, P: Point, Qhat: Point, c: Curve, ghost T: Pt)
    requires PairingSetting(c, T) && !Qhat.infinity && !Z.infinity && !P.infinity && P.x.b == 0 && P.Real() == T
    requires v != vdenom && {v, vdenom} !! {Z.x, P.x, Qhat.x, Qhat.y}
    requires Combined(c.solinasa, c.solinasb, v.Val(), vdenom.Val(), Z.x.Val(), T, Qhat.x.Val(), Qhat.y.Val(), c.p)
    modifies res, v, vdenom
    ensures var X, Y := old(Qhat.x.Val()), old(Qhat.y.Val());
            MillerRatio(res.Val(), MillerNum(c.solinasa, c.solinasb, T, X, Y, c.p),
                        MillerDen(c.solinasa, c.solinasb, T, X, Y, c.p), c.p)
  {
    hide Rem, Mul, Red, Add, Sub, Cong, CongG, UpTo, Canonical, Prime, Vertical, Multiplied, MillerRatio, CombinedNum,
         CombinedDen, Tail, Times, HasOrder, Associative, SolinasOrder, BitLen;
    ghost var X, Y := Qhat.x.Val(), Qhat.y.Val();
    ghost var N := CombinedNum(c.solinasa, c.solinasb, T, X, Y, c.p);
    ghost var D := CombinedDen(c.solinasa, c.solinasb, T, X, Y, c.p);
    TailIsP(c.solinasa, c.solinasb, T, c.q, c.p);
    ghost var v0, d0 := v.Val(), vdenom.Val();
    if c.solinasa < 0 {
      TateGetVertical(vdenom, Qhat, P, c.p);
      UpToVertical(vdenom.Val(), d0, D, T, X, c.p);
    }
    TateGetVertical(v, Qhat, Z, c.p);
    UpToVertical(v.Val(), v0, N, T, X, c.p);
    ghost var v1, d1 := v.Val(), vdenom.Val();
    res.SetDiv(v, vdenom, c.p);
    RatioIntro(res.Val(), v1, d1, MillerNum(c.solinasa, c.solinasb, T, X, Y, c.p),
               MillerDen(c.solinasa, c.solinasb, T, X, Y, c.p), c.p);
  }

  lemma RatioIntro(res: Gauss, v: Gauss, d: Gauss, N: Gauss, D: Gauss, p: Pos)
    requires UpTo(v, N, p) && UpTo(d, D, p) && Canonical(d, p) && IsQuotient(res, v, d, p)
    ensures MillerRatio(res, N, D, p)
  {
  }

  // ----- the whole loop -----

  lemma RepsAffine(T: Pt, p: Pos)
    requires Field(p) && T.A?
    ensures Reps(T.x, T.y, 1, T, p)
  {
    CanonicalNonZero(1, p);
  }

  method TateSolinasMiller(res: Elem, P: Point, Qhat: Point, c: Curve)
    requires P.Special(c.p) && !Qhat.infinity && PairingSetting(c, P.Real())
    modifies res
    ensures var X, Y := old(Qhat.x.Val()), old(Qhat.y.Val());
            MillerRatio(res.Val(), MillerNum(c.solinasa, c.solinasb, old(P.Real()), X, Y, c.p),
                        MillerDen(c.solinasa, c.solinasb, old(P.Real()), X, Y, c.p), c.p)
  {
    hide Rem, Mul, Red, Add, Sub, Cong, CongG, Times, UpTo, Canonical, Num, Den, IPow, HasOrder, Associative, Prime,
         SolinasOrder, OnCurve, Plus, BitLen, Shifted, Tail, SignedNum, SignedDen, ChordLine, Vertical, MillerRatio,
         MillerNum, MillerDen, ShiftReady, Reps, Running;
    ghost var T, X, Y := P.Real(), Qhat.x.Val(), Qhat.y.Val();
    ghost var sa, sb := c.solinasa, c.solinasb;
    var a, b := Abs(c.solinasa), Abs(c.solinasb);
    var v := new Elem();
    var vdenom := new Elem();
    var Z := new Point();
    SolinasSizes(sa, sb, c.q);
    v.SetOne();
    vdenom.SetOne();
    Z.Set(P);
    RunningStart(T, X, Y, c.p);
    if b != 0 {
      AllDoublings(v, vdenom, Z, Qhat, a, b, c, T);
    } else {
      var z := DoubleTo(v, vdenom, Z, Qhat, 1, 0, a, c, T);
      TailIsP(sa, sb, T, c.q, c.p);
      NoShift(sa, v.Val(), vdenom.Val(), Z.x.Val(), Z.y.Val(), T, X, Y, c.p);
    }
    CloseMiller(res, v, vdenom, Z, P, Qhat, c, T);
  }

  lemma NoShift(a: int, v: Gauss, d: Gauss, x: Gauss, y: Gauss, P: Pt, X: Gauss, Y: Gauss, p: Pos)
    requires Reached(Abs(a), v, d, x, y, P, X, Y, p) && Tail(a, 0, P, p) == Times(P2(Abs(a)), P, p)
    ensures Combined(a, 0, v, d, x, P, X, Y, p)
  {
  }

  // The doublings up to 2^b, the copy of f_(2^b), the remaining doublings and the
  // combination of the two.
  method AllDoublings(v: Elem, vdenom: Elem, Z: Point, Qhat: Point, a: nat, b: nat, c: Curve, ghost P: Pt)
    requires PairingSetting(c, P) && a == Abs(c.solinasa) && b == Abs(c.solinasb) && 0 < b < a
    requires !Qhat.infinity && !Z.infinity && Z != Qhat
    requires v != vdenom && Z.x != Z.y && {v, vdenom} !! {Z.x, Z.y} && {v, vdenom, Z.x, Z.y} !! {Qhat.x, Qhat.y}
    requires Running(0, v.Val(), vdenom.Val(), Z.x.a, Z.y.a, 1, P, Qhat.x.Val(), Qhat.y.Val(), c.p)
    requires Z.x.b == 0 && Z.y.b == 0
    modifies v, vdenom, Z, Z.x, Z.y
    ensures !Z.infinity
    ensures Combined(c.solinasa, c.solinasb, v.Val(), vdenom.Val(), Z.x.Val(), P, Qhat.x.Val(), Qhat.y.Val(), c.p)
  {
    hide Combined, Reached, ShiftReady, Running, PairingSetting;
    var fb, fbdenom, bP := FirstDoublings(v, vdenom, Z, Qhat, b, c, P);
    var z := DoubleTo(v, vdenom, Z, Qhat, 1, b, a, c, P);
    CombineShift(v, vdenom, fb, fbdenom, Z, bP, Qhat, c, P);
  }

  method FirstDoublings(v: Elem, vdenom: Elem, Z: Point, Qhat: Point, b: nat, c: Curve, ghost P: Pt)
    returns (fb: Elem, fbdenom: Elem, bP: Point)
    requires PairingSetting(c, P) && b == Abs(c.solinasb) && 0 < b <= Abs(c.solinasa)
    requires !Qhat.infinity && !Z.infinity && Z != Qhat
    requires v != vdenom && Z.x != Z.y && {v, vdenom} !! {Z.x, Z.y} && {v, vdenom, Z.x, Z.y} !! {Qhat.x, Qhat.y}
    requires Running(0, v.Val(), vdenom.Val(), Z.x.a, Z.y.a, 1, P, Qhat.x.Val(), Qhat.y.Val(), c.p)
    requires Z.x.b == 0 && Z.y.b == 0
    modifies v, vdenom, Z.x, Z.y
    ensures fresh(fb) && fresh(fbdenom) && fresh(bP) && fresh(bP.x) && fresh(bP.y) && bP.x != bP.y && !bP.infinity
    ensures {fb, fbdenom} !! {bP.x, bP.y}
    ensures Z.x.b == 0 && Z.y.b == 0
    ensures Running(b, v.Val(), vdenom.Val(), Z.x.a, Z.y.a, 1, P, Qhat.x.Val(), Qhat.y.Val(), c.p)
    ensures ShiftReady(c.solinasb, fb.Val(), fbdenom.Val(), bP.x.Val(), bP.y.Val(), P, Qhat.x.Val(), Qhat.y.Val(), c.p)
  {
    hide Combined, Reached, ShiftReady, Running, PairingSetting;
    fb := new Elem();
    fbdenom := new Elem();
    bP := new Point();
    var z := DoubleTo(v, vdenom, Z, Qhat, 1, 0, b, c, P);
    RememberShift(v, vdenom, fb, fbdenom, Z, bP, Qhat, c, P);
  }

  lemma SolinasSizes(a: int, b: int, q: Pos)
    requires SolinasPair(a, b, q)
    ensures Abs(b) <= Abs(a) && (b != 0 ==> 0 < Abs(b) < Abs(a)) && (b == 0 <==> Abs(b) == 0)
  {
  }

  // A run of doublings followed by the normalisation of Z.
  method DoubleTo(v: Elem, vdenom: Elem, Z: Point, Qhat: Point, z0: int, start: nat, end: nat, c: Curve, ghost P: Pt)
    returns (z: int)
    requires PairingSetting(c, P) && start <= end <= Abs(c.solinasa) && !Qhat.infinity
    requires v != vdenom && Z.x != Z.y && {v, vdenom} !! {Z.x, Z.y} && {v, vdenom, Z.x, Z.y} !! {Qhat.x, Qhat.y}
    requires Running(start, v.Val(), vdenom.Val(), Z.x.a, Z.y.a, z0, P, Qhat.x.Val(), Qhat.y.Val(), c.p)
    requires Z.x.b == 0 && Z.y.b == 0
    modifies v, vdenom, Z.x, Z.y
    ensures z == 1 && Running(end, v.Val(), vdenom.Val(), Z.x.a, Z.y.a, z, P, Qhat.x.Val(), Qhat.y.Val(), c.p)
    ensures Reached(end, v.Val(), vdenom.Val(), Z.x.Val(), Z.y.Val(), P, Qhat.x.Val(), Qhat.y.Val(), c.p)
    ensures Z.x.b == 0 && Z.y.b == 0
  {
    hide Rem, Mul, Red, Cong, Times, UpTo, Reps, Canonical, Num, Den, IPow, HasOrder, Associative, Prime,
         SolinasOrder, OnCurve, Plus, BitLen;
    ghost var T := Times(P2(end), P, c.p);
    z := Doublings(v, vdenom, Z, Qhat, z0, start, end, c, P);
    OrderOf(0, P, c.q, c.p);
    TimesOnCurve(P2(end), P, c.p);
    z := Normalise(Z, z, c.p, T);
    RepsAffine(T, c.p);
  }

  // The pairing of P and Q is the (p^2 - 1) / q-th power of Miller's value.
  method TatePairing(res: Elem, P: Point, Q: Point, c: Curve)
    requires P.Special(c.p) && !Q.infinity && PairingSetting(c, P.Real())
    modifies res
    ensures var X, Y := old(Q.x.Val()), old(Q.y.Val());
            PowerOfRatio(res.Val(), MillerNum(c.solinasa, c.solinasb, old(P.Real()), X, Y, c.p),
                         MillerDen(c.solinasa, c.solinasb, old(P.Real()), X, Y, c.p), c.tatepwr, c.p)
    ensures c.tatepwr == (c.p - 1) * ((c.p + 1) / c.q) && Canonical(res.Val(), c.p)
    ensures var X, Y := old(Q.x.Val()), old(Q.y.Val());
            var N, D := MillerNum(c.solinasa, c.solinasb, old(P.Real()), X, Y, c.p),
                        MillerDen(c.solinasa, c.solinasb, old(P.Real()), X, Y, c.p);
            if CongG(D, ZERO, c.p) then res.Val() == ZERO
            else CongG(Mul(res.Val(), Pow(D, c.tatepwr)), Pow(N, c.tatepwr), c.p)
  {
    hide Rem, Mul, Pow, Red, Cong, Times, UpTo, Canonical, IPow, HasOrder, Associative, Prime, SolinasOrder, OnCurve,
         Plus, BitLen, MillerRatio, MillerNum, MillerDen, PowerOfRatio;
    ghost var X, Y, T := Q.x.Val(), Q.y.Val(), P.Real();
    TateSolinasMiller(res, P, Q, c);
    ghost var f := res.Val();
    CofactorPositive(c.p, c.q);
    TatePower(res, c);
    RatioPower(f, MillerNum(c.solinasa, c.solinasb, T, X, Y, c.p),
               MillerDen(c.solinasa, c.solinasb, T, X, Y, c.p), c.p1onq, c.p);
    RatioMeans(res.Val(), MillerNum(c.solinasa, c.solinasb, T, X, Y, c.p),
               MillerDen(c.solinasa, c.solinasb, T, X, Y, c.p), c.tatepwr, c.p);
  }

  lemma RatioMeans(e: Gauss, N: Gauss, D: Gauss, t: nat, p: Pos)
    requires PowerOfRatio(e, N, D, t, p)
    ensures Canonical(e, p)
    ensures if CongG(D, ZERO, p) then e == ZERO else CongG(Mul(e, Pow(D, t)), Pow(N, t), p)
  {
  }

  lemma CofactorPositive(p: Pos, q: Pos)
    requires (p + 1) % q == 0
    ensures (p + 1) / q > 0 && ((p + 1) / q) * q == p + 1
  {
    DivisorAtMost(p + 1, q);
  }

  lemma RatioPower(f: Gauss, N: Gauss, D: Gauss, k: nat, p: Pos)
    requires Prime(p) && p % 4 == 3 && k > 0 && MillerRatio(f, N, D, p)
    ensures (p - 1) * k >= 0 && PowerOfRatio(Red(Pow(f, (p - 1) * k), p), N, D, (p - 1) * k, p)
  {
    hide Rem, Mul, Pow, Red, UpTo, Canonical, PowerOfRatio;
    var v, d :| UpTo(v, N, p) && UpTo(d, D, p) && Canonical(d, p) && IsQuotient(f, v, d, p);
    RatioUpTo(f, v, d, N, D, k, p);
  }
}
