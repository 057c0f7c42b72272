// miller_postprocess and tate_postprocess: the pairing from a filled cache, and
// its agreement with the direct computation.
module CachedPairing {
  import opened NumberTheory
  import opened Powers
  import opened Bits
  import opened EllipticCurve
  import opened PointGroup
  import opened Fp2
  import opened Curves
  import opened FinalPower
  import opened Miller
  import opened SolinasPoints
  import opened TateLines
  import opened MillerLoop
  import opened TateCache

  // v is multiplied by a X + Y + c.
  method MultiplyLine(v: Elem, Q: Point, a: int, c: int, p: Pos, ghost T: Pt, ghost l: int)
    requires LineCoefficients(a, c, T, l, p)
    modifies v
    ensures Multiplied(v.Val(), old(v.Val()), Line(T, l, old(Q.x.Val()), old(Q.y.Val())), p)
  {
    hide Rem, Mul, Red, Scale, Cong, CongG, Add, Sub, Canonical, Multiplied;
    ghost var v0, X, Y := v.Val(), Q.x.Val(), Q.y.Val();
    var t0 := new Elem();
    t0.SetMulMpz(Q.x, a, p);
    ghost var g1 := t0.Val();
    t0.SetAdd(t0, Q.y, p);
    ghost var g := t0.Val();
    t0.a := t0.a + c;
    ghost var f := t0.Val();
    v.SetMul(v, t0, p);
    LineFromCoefficients(X, Y, a, c, T, l, g1, g, f, p);
    MultipliedBy(v0, f, Line(T, l, X, Y), p);
  }

  lemma LineFromCoefficients(X: Gauss, Y: Gauss, a: int, c: int, T: Pt, l: int, g1: Gauss, g: Gauss, f: Gauss, p: Pos)
    requires LineCoefficients(a, c, T, l, p)
    requires g1 == Red(Scale(a, X), p) && CongG(g, Add(g1, Y), p) && f.b == g.b && f.a == g.a + c
    ensures CongG(f, Line(T, l, X, Y), p)
  {
    CongGRed(Scale(a, X), p);
    hide Rem;
    CongMul(a, -l, X.a, X.a, p); CongMul(a, -l, X.b, X.b, p);
    CongAdd(g1.a, -l * X.a, Y.a, Y.a, p);
    CongAdd(g1.b, -l * X.b, Y.b, Y.b, p);
    CongAdd(g.a, -l * X.a + Y.a, c, l * T.x - T.y, p);
    LineScale1(1, l, X.a, Y.a, T.x, T.y);
    LineScale1(1, l, X.b, Y.b, 0, 0);
  }

  // v is multiplied by X + c.
  method MultiplyVertical(v: Elem, Q: Point, c: int, p: Pos, ghost T: Pt)
    requires VerticalCoefficient(c, T, p)
    modifies v
    ensures Multiplied(v.Val(), old(v.Val()), Vertical(T, old(Q.x.Val())), p)
  {
    hide Rem, Mul, Red, Cong, CongG, Add, Sub, Canonical, Multiplied;
    ghost var v0, X := v.Val(), Q.x.Val();
    var t0 := new Elem();
    t0.Set(Q.x);
    t0.a := t0.a + c;
    ghost var f := t0.Val();
    v.SetMul(v, t0, p);
    VerticalFromCoefficient(X, c, T, f, p);
    MultipliedBy(v0, f, Vertical(T, X), p);
  }

  lemma VerticalFromCoefficient(X: Gauss, c: int, T: Pt, f: Gauss, p: Pos)
    requires VerticalCoefficient(c, T, p) && f == G(X.a + c, X.b)
    ensures CongG(f, Vertical(T, X), p)
  {
    hide Rem;
    CongAdd(X.a, X.a, c, -T.x, p);
  }

  lemma ExactFactor(v: Gauss, v0: Gauss, n: Gauss, f: Gauss, p: Pos)
    requires CongG(v0, n, p) && Multiplied(v, v0, f, p)
    ensures CongG(v, Mul(n, f), p) && Canonical(v, p)
  {
    hide Rem, Mul;
    CongGMul(v0, n, f, f, p);
  }

  lemma ExactProduct(v: Gauss, n: Gauss, w: Gauss, m: Gauss, p: Pos)
    requires CongG(v, n, p) && CongG(w, m, p)
    ensures CongG(Red(Mul(v, w), p), Mul(n, m), p) && Canonical(Red(Mul(v, w), p), p)
  {
    CongGRed(Mul(v, w), p);
    CanonicalRed(Mul(v, w), p);
    hide Rem, Mul;
    CongGMul(v, n, w, m, p);
  }

  // v / d is f_(2^i).
  ghost predicate Exactly(i: nat, v: Gauss, d: Gauss, P: Pt, X: Gauss, Y: Gauss, p: Pos) {
    && CongG(v, Num(i, P, X, Y, p), p) && CongG(d, Den(i, P, X, p), p)
    && Canonical(d, p)
  }

  method CachedStep(v: Elem, vdenom: Elem, mc: MillerCache, Q: Point, i: nat, p: Pos, ghost n: nat, ghost P: Pt)
    requires v != vdenom && {v, vdenom} !! {Q.x, Q.y} && i < n && Entries(mc, n, P, p)
    requires Exactly(i, v.Val(), vdenom.Val(), P, Q.x.Val(), Q.y.Val(), p)
    modifies v, vdenom
    ensures Exactly(i + 1, v.Val(), vdenom.Val(), P, Q.x.Val(), Q.y.Val(), p)
  {
    hide Rem, Mul, Red, Cong, CongG, Add, Sub, Canonical, Multiplied, Num, Den, TangentLine, Vertical, Line, Times,
         IPow, TangentSlope, LineCoefficients, VerticalCoefficient;
    ghost var X, Y := Q.x.Val(), Q.y.Val();
    ghost var N, D := Num(i, P, X, Y, p), Den(i, P, X, p);
    ghost var S, T := Times(P2(i), P, p), Times(P2(i + 1), P, p);
    assert Entry(i, mc.numa[i], mc.numc[i], mc.denomc[i], P, p);
    ExactProduct(v.Val(), N, v.Val(), N, p);
    ExactProduct(vdenom.Val(), D, vdenom.Val(), D, p);
    v.SetSqr(v, p);
    vdenom.SetSqr(vdenom, p);
    ghost var v0, d0 := v.Val(), vdenom.Val();
    MultiplyLine(v, Q, mc.numa[i], mc.numc[i], p, S, TangentSlope(S, p));
    ExactFactor(v.Val(), v0, Mul(N, N), Line(S, TangentSlope(S, p), X, Y), p);
    MultiplyVertical(vdenom, Q, mc.denomc[i], p, T);
    ExactFactor(vdenom.Val(), d0, Mul(D, D), Vertical(T, X), p);
    NumStep(i, P, X, Y, p);
    TangentIsLine(S, X, Y, p);
  }

  lemma TangentIsLine(T: Pt, X: Gauss, Y: Gauss, p: Pos)
    requires T.A?
    ensures TangentLine(T, X, Y, p) == Line(T, TangentSlope(T, p), X, Y)
  {
  }

  method CachedRun(v: Elem, vdenom: Elem, mc: MillerCache, Q: Point, start: nat, end: nat, p: Pos, ghost n: nat,
                   ghost P: Pt)
    requires v != vdenom && {v, vdenom} !! {Q.x, Q.y} && start <= end <= n && Entries(mc, n, P, p)
    requires Exactly(start, v.Val(), vdenom.Val(), P, Q.x.Val(), Q.y.Val(), p)
    modifies v, vdenom
    ensures Exactly(end, v.Val(), vdenom.Val(), P, Q.x.Val(), Q.y.Val(), p)
  {
    hide Exactly, Entries;
    var i := start;
    while i < end
      invariant start <= i <= end
      invariant Exactly(i, v.Val(), vdenom.Val(), P, Q.x.Val(), Q.y.Val(), p)
    {
      CachedStep(v, vdenom, mc, Q, i, p, n, P);
      i := i + 1;
    }
  }

  method CachedShift(v: Elem, vdenom: Elem, fb: Elem, fbdenom: Elem, mc: MillerCache, Q: Point, c: Curve, ghost P: Pt)
    requires c.solinasb != 0 && Holds(mc, c, P) && fb != fbdenom && {v, vdenom, Q.x, Q.y} !! {fb, fbdenom}
    requires Exactly(Abs(c.solinasb), v.Val(), vdenom.Val(), P, Q.x.Val(), Q.y.Val(), c.p)
    modifies fb, fbdenom
    ensures CongG(fb.Val(), SignedNum(c.solinasb, P, Q.x.Val(), Q.y.Val(), c.p), c.p)
    ensures CongG(fbdenom.Val(), SignedDen(c.solinasb, P, Q.x.Val(), Q.y.Val(), c.p), c.p)
  {
    hide Rem, Mul, Red, Cong, CongG, Canonical, Multiplied, Num, Den, Vertical, Times, IPow, VerticalCoefficient,
         ShiftCoefficients, Entries, BitLen;
    if c.solinasb < 0 {
      fbdenom.Set(v);
      fb.Set(vdenom);
      ghost var v0 := fbdenom.Val();
      ghost var T := Times(P2(Abs(c.solinasb)), P, c.p);
      MultiplyVertical(fbdenom, Q, mc.denomsb, c.p, T);
      ExactFactor(fbdenom.Val(), v0, Num(Abs(c.solinasb), P, Q.x.Val(), Q.y.Val(), c.p), Vertical(T, Q.x.Val()), c.p);
    } else {
      fb.Set(v);
      fbdenom.Set(vdenom);
    }
  }

  ghost predicate CombinedExactly(a: int, b: int, v: Gauss, d: Gauss, P: Pt, X: Gauss, Y: Gauss, p: Pos) {
    CongG(v, CombinedNum(a, b, P, X, Y, p), p) && CongG(d, CombinedDen(a, b, P, X, Y, p), p) && Canonical(d, p)
  }

  method CachedCombine(v: Elem, vdenom: Elem, fb: Elem, fbdenom: Elem, mc: MillerCache, Q: Point, c: Curve, ghost P: Pt)
    requires c.solinasb != 0 && Holds(mc, c, P) && v != vdenom && {v, vdenom} !! {fb, fbdenom, Q.x, Q.y}
    requires Exactly(Abs(c.solinasa), v.Val(), vdenom.Val(), P, Q.x.Val(), Q.y.Val(), c.p)
    requires CongG(fb.Val(), SignedNum(c.solinasb, P, Q.x.Val(), Q.y.Val(), c.p), c.p)
    requires CongG(fbdenom.Val(), SignedDen(c.solinasb, P, Q.x.Val(), Q.y.Val(), c.p), c.p)
    modifies v, vdenom
    ensures CombinedExactly(c.solinasa, c.solinasb, v.Val(), vdenom.Val(), P, Q.x.Val(), Q.y.Val(), c.p)
  {
    hide Rem, Mul, Red, Cong, CongG, Canonical, Multiplied, Num, Den, Vertical, Line, Times, IPow,
         VerticalCoefficient, LineCoefficients, Entries, BitLen, SignedNum, SignedDen, Tail, Shifted, ChordSlope;
    ghost var a, b, X, Y := c.solinasa, c.solinasb, Q.x.Val(), Q.y.Val();
    ghost var N, D := Num(Abs(a), P, X, Y, c.p), Den(Abs(a), P, X, c.p);
    ghost var fn, fd := SignedNum(b, P, X, Y, c.p), SignedDen(b, P, X, Y, c.p);
    ghost var S, T := Times(P2(Abs(a)), P, c.p), Shifted(b, P, c.p);
    ExactProduct(v.Val(), N, fb.Val(), fn, c.p);
    ExactProduct(vdenom.Val(), D, fbdenom.Val(), fd, c.p);
    v.SetMul(v, fb, c.p);
    vdenom.SetMul(vdenom, fbdenom, c.p);
    ghost var v0, d0 := v.Val(), vdenom.Val();
    MultiplyLine(v, Q, mc.numl1a, mc.numl1c, c.p, S, ChordSlope(S, T, c.p));
    ExactFactor(v.Val(), v0, Mul(N, fn), Line(S, ChordSlope(S, T, c.p), X, Y), c.p);
    MultiplyVertical(vdenom, Q, mc.denoml1c, c.p, Tail(a, b, P, c.p));
    ExactFactor(vdenom.Val(), d0, Mul(D, fd), Vertical(Tail(a, b, P, c.p), X), c.p);
  }

  // The exact quotient N / D, or zero when D vanishes.
  ghost predicate ExactRatio(res: Gauss, N: Gauss, D: Gauss, p: Pos) {
    if CongG(D, ZERO, p) then res == ZERO else CongG(Mul(res, D), N, p)
  }

  lemma ExactRatioIntro(res: Gauss, v: Gauss, d: Gauss, N: Gauss, D: Gauss, p: Pos)
    requires CongG(v, N, p) && CongG(d, D, p) && Canonical(d, p) && IsQuotient(res, v, d, p)
    ensures ExactRatio(res, N, D, p)
  {
    hide Rem, Mul;
    if CongG(D, ZERO, p) {
      ZeroIsCanonical(d, p);
    } else {
      CongGMul(res, res, d, D, p);
    }
  }

  lemma ExactIsMillerRatio(res: Gauss, N: Gauss, D: Gauss, p: Pos)
    requires Prime(p) && ExactRatio(res, N, D, p)
    ensures MillerRatio(res, N, D, p)
  {
    CongGRed(D, p);
    CanonicalRed(D, p);
    UpToCong(N, N, p);
    UpToCong(Red(D, p), D, p);
    hide Rem, Mul, UpTo, Canonical;
    var d := Red(D, p);
    if !CongG(d, ZERO, p) { CongGMul(res, res, d, D, p); }
    RatioIntro(res, N, d, N, D, p);
  }

  method MillerPostprocess(res: Elem, mc: MillerCache, Q: Point, c: Curve, ghost P: Pt)
    requires Holds(mc, c, P) && PairingSetting(c, P)
    modifies res
    ensures var X, Y := old(Q.x.Val()), old(Q.y.Val());
            ExactRatio(res.Val(), MillerNum(c.solinasa, c.solinasb, P, X, Y, c.p),
                       MillerDen(c.solinasa, c.solinasb, P, X, Y, c.p), c.p)
  {
    hide Rem, Mul, Red, Cong, CongG, Canonical, Multiplied, Num, Den, Vertical, Times, IPow, VerticalCoefficient,
         Prime, Associative, HasOrder, SolinasOrder, CombinedNum, CombinedDen, ShiftCoefficients, Entries, BitLen,
         ExactRatio, Exactly, CombinedExactly, SignedNum, SignedDen;
    ghost var X, Y := Q.x.Val(), Q.y.Val();
    ghost var sa, sb := c.solinasa, c.solinasb;
    var a, b := Abs(c.solinasa), Abs(c.solinasb);
    SolinasSizes(sa, sb, c.q);
    var v := new Elem();
    var vdenom := new Elem();
    v.SetOne();
    vdenom.SetOne();
    CachedStart(P, X, Y, c.p) by { FieldAboveOne(c.p); }
    if b != 0 {
      CachedBoth(v, vdenom, mc, Q, a, b, c, P);
    } else {
      CachedRun(v, vdenom, mc, Q, 0, a, c.p, a, P);
      CachedNoShift(sa, v.Val(), vdenom.Val(), P, X, Y, c.p);
    }
    CachedClose(res, v, vdenom, mc, Q, c, P);
  }

  // The lines up to 2^b, the copy of f_(2^b), the remaining lines and the
  // combination of the two.
  method CachedBoth(v: Elem, vdenom: Elem, mc: MillerCache, Q: Point, a: nat, b: nat, c: Curve, ghost P: Pt)
    requires Holds(mc, c, P) && a == Abs(c.solinasa) && b == Abs(c.solinasb) && 0 < b < a
    requires v != vdenom && {v, vdenom} !! {Q.x, Q.y}
    requires Exactly(0, v.Val(), vdenom.Val(), P, Q.x.Val(), Q.y.Val(), c.p)
    modifies v, vdenom
    ensures CombinedExactly(c.solinasa, c.solinasb, v.Val(), vdenom.Val(), P, Q.x.Val(), Q.y.Val(), c.p)
  {
    hide Exactly, CombinedExactly, Entries, ShiftCoefficients, VerticalCoefficient, CongG, SignedNum, SignedDen,
         BitLen;
    var fb := new Elem();
    var fbdenom := new Elem();
    CachedRun(v, vdenom, mc, Q, 0, b, c.p, a, P);
    CachedShift(v, vdenom, fb, fbdenom, mc, Q, c, P);
    CachedRun(v, vdenom, mc, Q, b, a, c.p, a, P);
    CachedCombine(v, vdenom, fb, fbdenom, mc, Q, c, P);
  }

  method CachedClose(res: Elem, v: Elem, vdenom: Elem, mc: MillerCache, Q: Point, c: Curve, ghost P: Pt)
    requires Holds(mc, c, P) && v != vdenom && {v, vdenom} !! {Q.x, Q.y}
    requires CombinedExactly(c.solinasa, c.solinasb, v.Val(), vdenom.Val(), P, Q.x.Val(), Q.y.Val(), c.p)
    requires Prime(c.p) && c.p % 4 == 3
    modifies res, v, vdenom
    ensures var X, Y := old(Q.x.Val()), old(Q.y.Val());
            ExactRatio(res.Val(), MillerNum(c.solinasa, c.solinasb, P, X, Y, c.p),
                       MillerDen(c.solinasa, c.solinasb, P, X, Y, c.p), c.p)
  {
    hide Rem, Mul, Red, Cong, CongG, Canonical, Multiplied, Vertical, VerticalCoefficient, Prime, CombinedNum,
         CombinedDen, ShiftCoefficients, Entries, BitLen, ExactRatio;
    ghost var sa, sb, X, Y := c.solinasa, c.solinasb, Q.x.Val(), Q.y.Val();
    ghost var N, D := CombinedNum(sa, sb, P, X, Y, c.p), CombinedDen(sa, sb, P, X, Y, c.p);
    ghost var v0, d0 := v.Val(), vdenom.Val();
    if c.solinasa < 0 {
      MultiplyVertical(vdenom, Q, mc.denoms1, c.p, P);
      ExactFactor(vdenom.Val(), d0, D, Vertical(P, X), c.p);
    }
    MultiplyVertical(v, Q, mc.numl2c, c.p, P);
    ExactFactor(v.Val(), v0, N, Vertical(P, X), c.p);
    ghost var v1, d1 := v.Val(), vdenom.Val();
    res.SetDiv(v, vdenom, c.p);
    ExactRatioIntro(res.Val(), v1, d1, MillerNum(sa, sb, P, X, Y, c.p), MillerDen(sa, sb, P, X, Y, c.p), c.p);
  }

  lemma FieldAboveOne(p: int)
    requires Prime(p)
    ensures p > 1
  {
  }

  lemma CachedStart(P: Pt, X: Gauss, Y: Gauss, p: Pos)
    requires p > 1
    ensures Exactly(0, ONE, ONE, P, X, Y, p)
  {
  }

  lemma CachedNoShift(a: int, v: Gauss, d: Gauss, P: Pt, X: Gauss, Y: Gauss, p: Pos)
    requires Exactly(Abs(a), v, d, P, X, Y, p)
    ensures CombinedExactly(a, 0, v, d, P, X, Y, p)
  {
  }

  // The pairing from the cache.
  method TatePostprocess(res: Elem, mc: MillerCache, Q: Point, c: Curve, ghost P: Pt)
    requires Holds(mc, c, P) && PairingSetting(c, P)
    modifies res
    ensures var X, Y := old(Q.x.Val()), old(Q.y.Val());
            PowerOfRatio(res.Val(), MillerNum(c.solinasa, c.solinasb, P, X, Y, c.p),
                         MillerDen(c.solinasa, c.solinasb, P, X, Y, c.p), c.tatepwr, c.p)
    ensures c.tatepwr == (c.p - 1) * ((c.p + 1) / c.q) && Canonical(res.Val(), c.p)
    ensures var X, Y := old(Q.x.Val()), old(Q.y.Val());
            var N, D := MillerNum(c.solinasa, c.solinasb, P, X, Y, c.p),
                        MillerDen(c.solinasa, c.solinasb, P, X, Y, c.p);
            if CongG(D, ZERO, c.p) then res.Val() == ZERO
            else CongG(Mul(res.Val(), Pow(D, c.tatepwr)), Pow(N, c.tatepwr), c.p)
  {
    hide Rem, Mul, Pow, Red, Cong, Times, UpTo, Canonical, IPow, HasOrder, Associative, Prime, SolinasOrder, OnCurve,
         Plus, BitLen, MillerRatio, MillerNum, MillerDen, PowerOfRatio, ExactRatio, Holds;
    ghost var N := MillerNum(c.solinasa, c.solinasb, P, Q.x.Val(), Q.y.Val(), c.p);
    ghost var D := MillerDen(c.solinasa, c.solinasb, P, Q.x.Val(), Q.y.Val(), c.p);
    MillerPostprocess(res, mc, Q, c, P);
    ghost var f := res.Val();
    CofactorPositive(c.p, c.q);
    TatePower(res, c);
    ExactIsMillerRatio(f, N, D, c.p);
    RatioPower(f, N, D, c.p1onq, c.p);
    RatioMeans(res.Val(), N, D, c.tatepwr, c.p);
  }

  // The cached and the direct computation agree at every finite point Q, even
  // where a line vanishes.
  method BothWays(P: Point, Q: Point, c: Curve) returns (direct: Elem, cached: Elem)
    requires P.Special(c.p) && !Q.infinity && PairingSetting(c, P.Real())
    ensures direct.Val() == cached.Val()
  {
    hide PowerOfRatio, PairingSetting, MillerNum, MillerDen, Holds;
    var mc := new MillerCache(c);
    direct := new Elem();
    cached := new Elem();
    TatePreprocess(mc, P, c);
    TatePostprocess(cached, mc, Q, c, P.Real());
    TatePairing(direct, P, Q, c);
    PairingDetermined(c, P.Real(), Q.x.Val(), Q.y.Val(), direct.Val(), cached.Val());
  }

  lemma PairingDetermined(c: Curve, P: Pt, X: Gauss, Y: Gauss, e: Gauss, f: Gauss)
    requires PairingSetting(c, P)
    requires PowerOfRatio(e, MillerNum(c.solinasa, c.solinasb, P, X, Y, c.p),
                          MillerDen(c.solinasa, c.solinasb, P, X, Y, c.p), c.tatepwr, c.p)
    requires PowerOfRatio(f, MillerNum(c.solinasa, c.solinasb, P, X, Y, c.p),
                          MillerDen(c.solinasa, c.solinasb, P, X, Y, c.p), c.tatepwr, c.p)
    ensures e == f
  {
    hide PowerOfRatio, MillerNum, MillerDen;
    PowerOfRatioUnique(e, f, MillerNum(c.solinasa, c.solinasb, P, X, Y, c.p),
                       MillerDen(c.solinasa, c.solinasb, P, X, Y, c.p), c.tatepwr, c.p);
  }
}
