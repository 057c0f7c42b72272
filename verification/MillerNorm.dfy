// What the value of Miller's algorithm is, apart from its construction: its lines
// pass through the points they are made for, and the product of its values at (X, Y)
// and (X, -Y) is a power of the vertical through P.
module MillerNorm {
  import opened NumberTheory
  import opened Powers
  import opened EllipticCurve
  import opened PointGroup
  import opened Fp2
  import opened Curves
  import opened ScalarMul
  import opened PointAddition
  import opened Closure
  import opened ExtensionGroup
  import opened FinalPower
  import opened Miller
  import opened SolinasPoints
  import opened MillerLoop

  function Opposite(Y: Gauss): Gauss { Sub(ZERO, Y) }

  // ----- a line and its reflection -----

  // (Y - e)(-Y - e) = e^2 - Y^2
  lemma ReflectedProduct(Y: Gauss, e: Gauss)
    ensures Mul(Sub(Y, e), Sub(Opposite(Y), e)) == Sub(Mul(e, e), Mul(Y, Y))
  {
    var n := Opposite(Y);
    MulSub(Sub(Y, e), n, e);
    MulComm(Sub(Y, e), n); MulComm(Sub(Y, e), e);
    MulSub(n, Y, e); MulSub(e, Y, e);
    MulComm(n, Y); NegateBoth(Y, Y);
    MulComm(n, e); NegateBoth(e, Y);
    hide Mul;
  }

  // With v = u + d - w the value w v - d u factors.
  lemma BracketFactors(w: Gauss, d: Gauss, u: Gauss)
    ensures Sub(Mul(w, Sub(Add(u, d), w)), Mul(u, d)) == Mul(Sub(w, d), Sub(u, w))
  {
    MulSub(w, Add(u, d), w); MulDistr(w, u, d);
    MulSub(Sub(w, d), u, w);
    MulComm(Sub(w, d), u); MulSub(u, w, d); MulComm(u, w);
    MulComm(Sub(w, d), w); MulSub(w, w, d);
    hide Mul;
  }

  lemma BracketAt(x: Gauss, y: Gauss, l: Gauss, w: Gauss, d: Gauss, u: Gauss, p: Pos)
    requires CongG(Closure.Bracket(x, y, l, Mul(u, d)), ZERO, p)
    ensures CongG(Closure.Bracket(x, y, l, Mul(w, Sub(Add(u, d), w))), Mul(Sub(w, d), Sub(u, w)), p)
  {
    BracketFactors(w, d, u);
    hide Mul, Rem, Red;
    var t := Mul(w, Sub(Add(u, d), w));
    var b := Sub(Scale(2, Mul(y, l)), Scale(3, Mul(x, x)));
    assert Closure.Bracket(x, y, l, t) == Add(Add(b, Mul(u, d)), Sub(t, Mul(u, d)));
    CongGAdd(Add(b, Mul(u, d)), ZERO, Sub(t, Mul(u, d)), Sub(t, Mul(u, d)), p);
    assert Add(ZERO, Sub(t, Mul(u, d))) == Sub(t, Mul(u, d));
  }

  // The line of slope l through (x1, y1) meets the curve in abscissas x1, x2, x3.
  lemma LineNorm(x1: Gauss, y1: Gauss, x2: Gauss, l: Gauss, x3: Gauss, X: Gauss, Y: Gauss, p: Pos)
    requires OnCurve2(x1, y1, p) && OnCurve2(X, Y, p) && CongG(x3, Sub(Sub(Mul(l, l), x1), x2), p)
    requires CongG(Closure.Bracket(x1, y1, l, Mul(Sub(x3, x1), Sub(x2, x1))), ZERO, p)
    ensures var e := Add(y1, Mul(l, Sub(X, x1)));
            CongG(Mul(Sub(Y, e), Sub(Opposite(Y), e)),
                  Scale(-1, Mul(Mul(Sub(X, x1), Sub(X, x2)), Sub(X, x3))), p)
  {
    hide Mul, Rem, Red, Closure.Bracket, Residue, OnCurve2;
    var w, d, u := Sub(X, x1), Sub(x2, x1), Sub(x3, x1);
    var e, v := Add(y1, Mul(l, w)), Sub(Add(u, d), w);
    SlopeAt(x1, x2, l, x3, w, p);
    assert Add(x1, w) == X;
    LineCong(x1, y1, l, w, v, X, e, p);
    BracketAt(x1, y1, l, w, d, u, p);
    CongGMul(w, w, Closure.Bracket(x1, y1, l, Mul(w, v)), Mul(Sub(w, d), Sub(u, w)), p);
    ReflectedProduct(Y, e);
    ResidueDifference(X, Y, e, p);
    assert Sub(w, d) == Sub(X, x2) && Sub(u, w) == Scale(-1, Sub(X, x3));
    MulAssoc(w, Sub(X, x2), Scale(-1, Sub(X, x3)));
    MulScale(Mul(w, Sub(X, x2)), -1, Sub(X, x3));
  }

  lemma SlopeAt(x1: Gauss, x2: Gauss, l: Gauss, x3: Gauss, w: Gauss, p: Pos)
    requires CongG(x3, Sub(Sub(Mul(l, l), x1), x2), p)
    ensures CongG(Mul(l, l), Add(Sub(Add(Sub(x3, x1), Sub(x2, x1)), w), Add(Scale(3, x1), w)), p)
  {
    SlopeSquare(x1, x2, l, x3, p);
    hide Mul, Rem, Red;
    assert Add(Sub(Add(Sub(x3, x1), Sub(x2, x1)), w), Add(Scale(3, x1), w))
        == Add(Sub(x2, x1), Add(Scale(3, x1), Sub(x3, x1)));
  }

  lemma ResidueDifference(X: Gauss, Y: Gauss, e: Gauss, p: Pos)
    requires OnCurve2(X, Y, p)
    ensures CongG(Sub(Mul(e, e), Mul(Y, Y)), Residue(X, e), p)
  {
    hide Mul, Rem, Red;
    var c := Mul(Mul(X, X), X);
    CongGAdd(Mul(e, e), Mul(e, e), Mul(Y, Y), Add(c, ONE), p);
    assert Sub(Mul(e, e), Add(c, ONE)) == Sub(Sub(Mul(e, e), c), ONE);
  }

  // ----- the lines of Miller's algorithm -----

  lemma LineAsDifference(T: Pt, l: int, X: Gauss, Y: Gauss)
    requires T.A?
    ensures Line(T, l, X, Y) == Sub(Y, Add(G(T.y, 0), Mul(G(l, 0), Sub(X, G(T.x, 0)))))
  {
    var w := Sub(X, G(T.x, 0));
    MulComm(G(l, 0), w);
    RealFactor(w, l);
    hide Mul, Scale;
  }

  lemma RealAbscissa(S: Pt, x2: int, l: int, p: Pos)
    requires S.A?
    ensures CongG(G(Third(S, x2, l, p).x, 0), Sub(Sub(Mul(G(l, 0), G(l, 0)), G(S.x, 0)), G(x2, 0)), p)
  {
    CongMod(l * l - S.x - x2, p);
    RealEmbedding(l, l); RealEmbedding(l * l, S.x); RealEmbedding(l * l - S.x, x2);
    hide Mul, Rem;
    RealCong(Third(S, x2, l, p).x, l * l - S.x - x2, p);
  }

  lemma RealOnCurve(T: Pt, p: Pos)
    requires T.A? && OnCurve(T, p)
    ensures OnCurve2(G(T.x, 0), G(T.y, 0), p)
  {
    EmbedOnCurve(T, p);
  }

  // A tangent times its reflection: the verticals at T, T and 2 T.
  lemma TangentNorm(T: Pt, X: Gauss, Y: Gauss, p: Pos)
    requires Field(p) && T.A? && OnCurve(T, p) && T.y != 0 && OnCurve2(X, Y, p)
    ensures CongG(Mul(TangentLine(T, X, Y, p), TangentLine(T, X, Opposite(Y), p)),
                  Scale(-1, Mul(Mul(Vertical(T, X), Vertical(T, X)), Vertical(Plus(T, T, p), X))), p)
  {
    hide Mul, Rem, Third, TangentSlope, OnCurve2, OnCurve, Plus, Line, Sub, Add, CongG, Scale;
    var k := TangentSlope(T, p);
    DoubleShape(T, p);
    RealTangentSlope(T, p);
    RealOnCurve(T, p);
    RealAbscissa(T, T.x, k, p);
    TangentBracket(G(T.x, 0), G(T.y, 0), G(k, 0), G(Plus(T, T, p).x, 0), p);
    LineNorm(G(T.x, 0), G(T.y, 0), G(T.x, 0), G(k, 0), G(Plus(T, T, p).x, 0), X, Y, p);
    LineAsDifference(T, k, X, Y); LineAsDifference(T, k, X, Opposite(Y));
  }

  lemma RealTangentSlope(T: Pt, p: Pos)
    requires Field(p) && T.A? && OnCurve(T, p) && !Cong(T.y, 0, p)
    ensures CongG(Mul(G(TangentSlope(T, p), 0), Add(G(T.y, 0), G(T.y, 0))), Mul(Scale(3, G(T.x, 0)), G(T.x, 0)), p)
  {
    hide Mul, Rem, TangentSlope, Add, Scale, CongG, OnCurve, Prime, Cong;
    TangentSlopeCorrect(T, p);
    var k := TangentSlope(T, p);
    TangentEmbedding(T.x, T.y);
    RealEmbedding(k, 2 * T.y);
    RealCong(k * (2 * T.y), 3 * T.x * T.x, p);
  }

  // A chord times its reflection: the verticals at S, T and S + T.
  lemma ChordNorm(S: Pt, T: Pt, X: Gauss, Y: Gauss, p: Pos)
    requires Field(p) && p % 4 == 3 && S.A? && T.A? && OnCurve(S, p) && OnCurve(T, p) && S.x != T.x
    requires OnCurve2(X, Y, p)
    ensures CongG(Mul(ChordLine(S, T, X, Y, p), ChordLine(S, T, X, Opposite(Y), p)),
                  Scale(-1, Mul(Mul(Vertical(S, X), Vertical(T, X)), Vertical(Plus(S, T, p), X))), p)
  {
    hide Mul, Rem, Third, ChordSlope, OnCurve2, OnCurve, Plus, Line, Sub, Add, CongG;
    var k := ChordSlope(S, T, p);
    ChordThird(S, T, p);
    ChordShape(S, T, p);
    RealChordSlope(S, T, p);
    RealOnCurve(S, p); RealOnCurve(T, p);
    RealAbscissa(S, T.x, k, p);
    ChordBracket(G(S.x, 0), G(S.y, 0), G(T.x, 0), G(T.y, 0), G(k, 0), G(Plus(S, T, p).x, 0), p);
    LineNorm(G(S.x, 0), G(S.y, 0), G(T.x, 0), G(k, 0), G(Plus(S, T, p).x, 0), X, Y, p);
    LineAsDifference(S, k, X, Y); LineAsDifference(S, k, X, Opposite(Y));
  }

  lemma ChordThird(S: Pt, T: Pt, p: Pos)
    requires S.A? && T.A? && S.x != T.x
    ensures Plus(S, T, p) == Third(S, T.x, ChordSlope(S, T, p), p)
  {
    hide Third, ChordSlope, TangentSlope;
  }

  lemma RealChordSlope(S: Pt, T: Pt, p: Pos)
    requires Field(p) && S.A? && T.A? && OnCurve(S, p) && OnCurve(T, p) && S.x != T.x
    ensures CongG(Mul(G(ChordSlope(S, T, p), 0), Sub(G(T.x, 0), G(S.x, 0))), Sub(G(T.y, 0), G(S.y, 0)), p)
  {
    hide Mul, Rem, ChordSlope, Sub, CongG, OnCurve, Prime, Cong;
    ChordSlopeCorrect(S, T, p);
    var k := ChordSlope(S, T, p);
    RealEmbedding(T.x, S.x); RealEmbedding(T.y, S.y);
    RealEmbedding(k, T.x - S.x);
    RealCong(k * (T.x - S.x), T.y - S.y, p);
  }

  // ----- one law for all partial values -----

  // The product N N' / (D D') of the values at (X, Y) and (X, -Y) is
  // s V^(e - f) / W, where W is the vertical at the point reached and V that at P.
  ghost predicate NormLaw(N: Gauss, N': Gauss, D: Gauss, D': Gauss, W: Gauss, V: Gauss, e: nat, f: nat, s: int,
                          p: Pos) {
    && (s == 1 || s == -1)
    && CongG(Mul(Mul(Mul(N, N'), W), Pow(V, f)), Scale(s, Mul(Pow(V, e), Mul(D, D'))), p)
  }

  // With A1 W1 F1 = s1 E1 B1, A2 W2 F2 = s2 E2 B2 and L = -W1 W2 W3:
  // (A1 A2 L) W3 (F1 F2) = -s1 s2 (E1 E2) (B1 B2 W3 W3).
  lemma LawProduct(A1: Gauss, B1: Gauss, W1: Gauss, E1: Gauss, F1: Gauss, s1: int,
                   A2: Gauss, B2: Gauss, W2: Gauss, E2: Gauss, F2: Gauss, s2: int, L: Gauss, W3: Gauss, p: Pos)
    requires CongG(Mul(Mul(A1, W1), F1), Scale(s1, Mul(E1, B1)), p)
    requires CongG(Mul(Mul(A2, W2), F2), Scale(s2, Mul(E2, B2)), p)
    requires CongG(L, Scale(-1, Mul(Mul(W1, W2), W3)), p)
    ensures CongG(Mul(Mul(Mul(Mul(A1, A2), L), W3), Mul(F1, F2)),
                  Scale(-(s1 * s2), Mul(Mul(E1, E2), Mul(Mul(B1, B2), Mul(W3, W3)))), p)
  {
    hide Mul, Red, Scale;
    var AA, FF, WW, W33 := Mul(A1, A2), Mul(F1, F2), Mul(W1, W2), Mul(W3, W3);
    CongGMul(AA, AA, L, Scale(-1, Mul(WW, W3)), p);
    CongGMul(Mul(AA, L), Mul(AA, Scale(-1, Mul(WW, W3))), W3, W3, p);
    CongGMul(Mul(Mul(AA, L), W3), Mul(Mul(AA, Scale(-1, Mul(WW, W3))), W3), FF, FF, p);
    LeftSide(A1, W1, F1, A2, W2, F2, W3);
    var K1, K2 := Mul(Mul(A1, W1), F1), Mul(Mul(A2, W2), F2);
    CongGMul(K1, Scale(s1, Mul(E1, B1)), K2, Scale(s2, Mul(E2, B2)), p);
    ScaleProducts(s1, Mul(E1, B1), s2, Mul(E2, B2));
    MulSwap(E1, B1, E2, B2);
    CongGMul(Mul(K1, K2), Scale(s1 * s2, Mul(Mul(E1, E2), Mul(B1, B2))), W33, W33, p);
    RightSide(s1 * s2, Mul(E1, E2), Mul(B1, B2), W33);
    NegateCong(Mul(Mul(K1, K2), W33), Scale(s1 * s2, Mul(Mul(E1, E2), Mul(Mul(B1, B2), W33))), p);
    NegateScale(s1 * s2, Mul(Mul(E1, E2), Mul(Mul(B1, B2), W33)));
  }

  lemma LeftSide(A1: Gauss, W1: Gauss, F1: Gauss, A2: Gauss, W2: Gauss, F2: Gauss, W3: Gauss)
    ensures Mul(Mul(Mul(Mul(A1, A2), Scale(-1, Mul(Mul(W1, W2), W3))), W3), Mul(F1, F2))
         == Scale(-1, Mul(Mul(Mul(Mul(A1, W1), F1), Mul(Mul(A2, W2), F2)), Mul(W3, W3)))
  {
    hide Mul, Scale;
    var AA, FF, WW, W33 := Mul(A1, A2), Mul(F1, F2), Mul(W1, W2), Mul(W3, W3);
    MulScale(AA, -1, Mul(WW, W3));
    ScaleLeft(-1, Mul(AA, Mul(WW, W3)), W3);
    ScaleLeft(-1, Mul(Mul(AA, Mul(WW, W3)), W3), FF);
    MulAssoc(AA, WW, W3);
    MulAssoc(Mul(AA, WW), W3, W3);
    MulAssoc(Mul(AA, WW), W33, FF); MulComm(W33, FF); MulAssoc(Mul(AA, WW), FF, W33);
    MulSwap(A1, A2, W1, W2);
    MulSwap(Mul(A1, W1), Mul(A2, W2), F1, F2);
  }

  lemma RightSide(s: int, E: Gauss, B: Gauss, W: Gauss)
    ensures Mul(Scale(s, Mul(E, B)), W) == Scale(s, Mul(E, Mul(B, W)))
  {
    hide Mul, Scale;
    ScaleLeft(s, Mul(E, B), W);
    MulAssoc(E, B, W);
  }

  lemma ScaleLeft(c: int, x: Gauss, y: Gauss)
    ensures Mul(Scale(c, x), y) == Scale(c, Mul(x, y))
  {
    MulComm(Scale(c, x), y); MulScale(y, c, x); MulComm(y, x);
  }

  lemma ScaleProducts(c: int, x: Gauss, d: int, y: Gauss)
    ensures Mul(Scale(c, x), Scale(d, y)) == Scale(c * d, Mul(x, y))
  {
    ScaleProduct(c, x, d, y);
  }

  lemma NegateCong(x: Gauss, y: Gauss, p: Pos)
    requires CongG(x, y, p)
    ensures CongG(Scale(-1, x), Scale(-1, y), p)
  {
    hide Rem;
    CongMul(-1, -1, x.a, y.a, p);
    CongMul(-1, -1, x.b, y.b, p);
  }

  lemma NegateScale(s: int, x: Gauss)
    ensures Scale(-1, Scale(s, x)) == Scale(-s, x)
  {
    ScaleScale(-1, s, x);
  }

  // The law for f_m, f_n and the line between the points gives the law for f_(m+n).
  lemma LawJoin(N1: Gauss, N1': Gauss, D1: Gauss, D1': Gauss, W1: Gauss, e1: nat, f1: nat, s1: int,
                N2: Gauss, N2': Gauss, D2: Gauss, D2': Gauss, W2: Gauss, e2: nat, f2: nat, s2: int,
                L: Gauss, L': Gauss, W3: Gauss, V: Gauss, p: Pos)
    requires NormLaw(N1, N1', D1, D1', W1, V, e1, f1, s1, p) && NormLaw(N2, N2', D2, D2', W2, V, e2, f2, s2, p)
    requires CongG(Mul(L, L'), Scale(-1, Mul(Mul(W1, W2), W3)), p)
    ensures NormLaw(Mul(Mul(N1, N2), L), Mul(Mul(N1', N2'), L'), Mul(Mul(D1, D2), W3), Mul(Mul(D1', D2'), W3),
                    W3, V, e1 + e2, f1 + f2, -(s1 * s2), p)
  {
    hide Mul, Red, Scale, Pow, CongG;
    LawProduct(Mul(N1, N1'), Mul(D1, D1'), W1, Pow(V, e1), Pow(V, f1), s1,
               Mul(N2, N2'), Mul(D2, D2'), W2, Pow(V, e2), Pow(V, f2), s2, Mul(L, L'), W3, p);
    PairProduct(N1, N2, L, N1', N2', L');
    PairProduct(D1, D2, W3, D1', D2', W3);
    PowAdd(V, e1, e2); PowAdd(V, f1, f2);
    assert -(s1 * s2) == 1 || -(s1 * s2) == -1;
  }

  lemma PairProduct(a: Gauss, b: Gauss, c: Gauss, a': Gauss, b': Gauss, c': Gauss)
    ensures Mul(Mul(Mul(a, b), c), Mul(Mul(a', b'), c')) == Mul(Mul(Mul(a, a'), Mul(b, b')), Mul(c, c'))
  {
    MulSwap(Mul(a, b), c, Mul(a', b'), c');
    MulSwap(a, b, a', b');
  }

  // The law for f_(-n), whose numerator is the denominator of f_n.
  lemma LawInverse(N: Gauss, N': Gauss, D: Gauss, D': Gauss, W: Gauss, V: Gauss, e: nat, f: nat, s: int, p: Pos)
    requires NormLaw(N, N', D, D', W, V, e, f, s, p)
    ensures NormLaw(D, D', Mul(N, W), Mul(N', W), W, V, f, e, s, p)
  {
    hide Mul, Red, Scale, Pow, CongG;
    var A, B, E, F := Mul(N, N'), Mul(D, D'), Pow(V, e), Pow(V, f);
    MulSwap(N, W, N', W);
    InvertedLaw(A, B, W, E, F, s, p);
  }

  lemma InvertedLaw(A: Gauss, B: Gauss, W: Gauss, E: Gauss, F: Gauss, s: int, p: Pos)
    requires (s == 1 || s == -1) && CongG(Mul(Mul(A, W), F), Scale(s, Mul(E, B)), p)
    ensures CongG(Mul(Mul(B, W), E), Scale(s, Mul(F, Mul(A, Mul(W, W)))), p)
  {
    hide Mul, Red, Scale;
    var sW := Scale(s, W);
    CongGMul(Mul(Mul(A, W), F), Scale(s, Mul(E, B)), sW, sW, p);
    ScaleProduct(s, Mul(E, B), s, W);
    assert s * s == 1;
    ScaleOne(Mul(Mul(E, B), W));
    MulAssoc(E, B, W); MulComm(E, Mul(B, W));
    MulScale(Mul(Mul(A, W), F), s, W);
    MulComm(Mul(A, W), F); MulAssoc(F, Mul(A, W), W); MulAssoc(A, W, W);
  }

  lemma ScaleOne(x: Gauss)
    ensures Scale(1, x) == x
  {
  }

  // The closing verticals, when the point reached has the abscissa of P.
  lemma LawClose(N: Gauss, N': Gauss, D: Gauss, D': Gauss, V: Gauss, e: nat, f: nat, s: int, p: Pos)
    requires NormLaw(N, N', D, D', V, V, e, f, s, p) && e > 0
    ensures CongG(Mul(Mul(Mul(N, V), Mul(N', V)), Pow(V, f)), Scale(s, Mul(Pow(V, e + 1), Mul(D, D'))), p)
    ensures CongG(Mul(Mul(Mul(N, V), Mul(N', V)), Pow(V, f)),
                  Scale(s, Mul(Pow(V, e - 1), Mul(Mul(D, V), Mul(D', V)))), p)
  {
    hide Mul, Red, Scale;
    var A, B, E, F := Mul(N, N'), Mul(D, D'), Pow(V, e), Pow(V, f);
    MulSwap(N, V, N', V); MulSwap(D, V, D', V);
    assert Pow(V, e + 1) == Mul(V, E) && E == Mul(V, Pow(V, e - 1));
    hide Pow, CongG;
    ClosedLaw(A, B, V, E, F, s, p);
    var G' := Pow(V, e - 1);
    MulComm(V, G'); MulAssoc(V, E, B); MulAssoc(V, Mul(V, G'), B);
    MulAssoc(G', V, B); MulAssoc(G', B, Mul(V, V)); MulComm(B, Mul(V, V));
    Rotate(V, G', B);
  }

  lemma Rotate(v: Gauss, g: Gauss, b: Gauss)
    ensures Mul(Mul(v, Mul(v, g)), b) == Mul(g, Mul(b, Mul(v, v)))
  {
    hide Mul;
    MulAssoc(v, v, g); MulComm(Mul(v, v), g); MulAssoc(g, Mul(v, v), b); MulComm(Mul(v, v), b);
  }

  lemma ClosedLaw(A: Gauss, B: Gauss, V: Gauss, E: Gauss, F: Gauss, s: int, p: Pos)
    requires CongG(Mul(Mul(A, V), F), Scale(s, Mul(E, B)), p)
    ensures CongG(Mul(Mul(A, Mul(V, V)), F), Scale(s, Mul(Mul(V, E), B)), p)
  {
    hide Mul, Red, Scale;
    CongGMul(V, V, Mul(Mul(A, V), F), Scale(s, Mul(E, B)), p);
    MulScale(V, s, Mul(E, B)); MulAssoc(V, E, B);
    MulAssoc(V, Mul(A, V), F); MulComm(V, Mul(A, V)); MulAssoc(A, V, V);
  }

  // ----- the partial values -----

  lemma {:induction false} NumLaw(i: nat, P: Pt, q: Pos, X: Gauss, Y: Gauss, p: Pos)
    requires GroupLaw(p) && HasOrder(P, q, p) && q % 2 == 1 && OnCurve2(X, Y, p)
    ensures var D := Den(i, P, X, p);
            NormLaw(Num(i, P, X, Y, p), Num(i, P, X, Opposite(Y), p), D, D, Vertical(Times(P2(i), P, p), X),
                    Vertical(P, X), NatP2(i), 0, if i == 0 then 1 else -1, p)
  {
    hide Times, Plus, HasOrder, OnCurve, Associative, Prime, Mul, Red, Scale, TangentLine, Vertical, OnCurve2, IPow,
         NormLaw, Opposite;
    var V := Vertical(P, X);
    if i == 0 {
      TimesOne(P, p);
      P2Zero();
      StartLaw(V, p);
    } else {
      var N, N', D := Num(i - 1, P, X, Y, p), Num(i - 1, P, X, Opposite(Y), p), Den(i - 1, P, X, p);
      var T := Times(P2(i - 1), P, p);
      NumLaw(i - 1, P, q, X, Y, p);
      NextDouble(i - 1, P, q, p);
      TangentNorm(T, X, Y, p);
      P2Positive(i - 1);
      var s := if i == 1 then 1 else -1;
      LawJoin(N, N', D, D, Vertical(T, X), NatP2(i - 1), 0, s, N, N', D, D, Vertical(T, X), NatP2(i - 1), 0, s,
              TangentLine(T, X, Y, p), TangentLine(T, X, Opposite(Y), p), Vertical(Times(P2(i), P, p), X), V, p);
      NumStep(i - 1, P, X, Y, p); NumStep(i - 1, P, X, Opposite(Y), p);
    }
  }

  function NatP2(i: nat): (n: nat)
    ensures n == P2(i)
  {
    P2Positive(i);
    P2(i)
  }

  lemma StartLaw(V: Gauss, p: Pos)
    ensures NormLaw(ONE, ONE, ONE, ONE, V, V, 1, 0, 1, p)
  {
    hide Mul, Red;
    PowSmall(V);
    MulOne(ONE); MulOne(V);
    ScaleOne(V);
  }

  // The exponents of V in the law for f_(2^|a| +- 2^|b|).
  function Upwards(a: int, b: int): nat { NatP2(Abs(a)) + if b > 0 then NatP2(Abs(b)) else 0 }

  function Downwards(b: int): nat { if b < 0 then NatP2(Abs(b)) else 0 }

  lemma SignedLaw(b: int, P: Pt, q: Pos, X: Gauss, Y: Gauss, p: Pos)
    requires GroupLaw(p) && HasOrder(P, q, p) && q % 2 == 1 && OnCurve2(X, Y, p) && b != 0
    ensures NormLaw(SignedNum(b, P, X, Y, p), SignedNum(b, P, X, Opposite(Y), p),
                    SignedDen(b, P, X, Y, p), SignedDen(b, P, X, Opposite(Y), p),
                    Vertical(Times(P2(Abs(b)), P, p), X), Vertical(P, X),
                    if b > 0 then NatP2(Abs(b)) else 0, Downwards(b), -1, p)
  {
    hide Times, HasOrder, Associative, Prime, Mul, Red, Scale, Vertical, OnCurve2, IPow, NormLaw, Opposite, Num, Den;
    var n: nat := Abs(b);
    NumLaw(n, P, q, X, Y, p);
    if b < 0 {
      var D := Den(n, P, X, p);
      LawInverse(Num(n, P, X, Y, p), Num(n, P, X, Opposite(Y), p), D, D, Vertical(Times(P2(n), P, p), X),
                 Vertical(P, X), NatP2(n), 0, -1, p);
    }
  }

  lemma SameVertical(S: Pt, T: Pt, X: Gauss)
    requires S.A? && T.A? && S.x == T.x
    ensures Vertical(S, X) == Vertical(T, X)
  {
  }

  lemma CombinedLaw(a: int, b: int, P: Pt, q: Pos, X: Gauss, Y: Gauss, p: Pos)
    requires GroupLaw(p) && p % 4 == 3 && HasOrder(P, q, p) && SolinasOrder(a, b, q) && OnCurve2(X, Y, p)
    ensures NormLaw(CombinedNum(a, b, P, X, Y, p), CombinedNum(a, b, P, X, Opposite(Y), p),
                    CombinedDen(a, b, P, X, Y, p), CombinedDen(a, b, P, X, Opposite(Y), p),
                    Vertical(P, X), Vertical(P, X), Upwards(a, b), Downwards(b), -1, p)
  {
    hide Times, HasOrder, Associative, Prime, Mul, Red, Scale, Vertical, OnCurve2, IPow, NormLaw, Opposite, Num, Den,
         SolinasOrder, Plus, OnCurve, ChordLine, SignedNum, SignedDen, Shifted, Tail;
    SolinasOdd(a, b, q);
    OrderSizes(a, b, q);
    TailIsP(a, b, P, q, p);
    NumLaw(Abs(a), P, q, X, Y, p);
    SameVertical(Tail(a, b, P, p), P, X);
    if b != 0 {
      var m: nat := Abs(a);
      var S, T := Times(P2(m), P, p), Shifted(b, P, p);
      ProperChord(a, b, P, q, p);
      SignedLaw(b, P, q, X, Y, p);
      ChordNorm(S, T, X, Y, p);
      ShiftedVertical(b, P, q, X, p);
      LawJoin(Num(m, P, X, Y, p), Num(m, P, X, Opposite(Y), p), Den(m, P, X, p), Den(m, P, X, p), Vertical(S, X),
              NatP2(m), 0, -1,
              SignedNum(b, P, X, Y, p), SignedNum(b, P, X, Opposite(Y), p),
              SignedDen(b, P, X, Y, p), SignedDen(b, P, X, Opposite(Y), p), Vertical(T, X),
              if b > 0 then NatP2(Abs(b)) else 0, Downwards(b), -1,
              ChordLine(S, T, X, Y, p), ChordLine(S, T, X, Opposite(Y), p), Vertical(Tail(a, b, P, p), X),
              Vertical(P, X), p);
    }
  }

  lemma OrderSizes(a: int, b: int, q: Pos)
    requires SolinasOrder(a, b, q)
    ensures a != 0 && Abs(a) > 0 && SolinasPair(a, b, q)
  {
  }

  // The abscissa of +-2^|b| P does not depend on the sign.
  lemma ShiftedVertical(b: int, P: Pt, q: Pos, X: Gauss, p: Pos)
    requires GroupLaw(p) && HasOrder(P, q, p) && b != 0 && Shifted(b, P, p).A?
    ensures Vertical(Shifted(b, P, p), X) == Vertical(Times(P2(Abs(b)), P, p), X)
  {
    hide Times, HasOrder, Associative, IPow;
    OrderOf(0, P, q, p);
    ShiftedIs(b, P, p);
  }

  // N N' V^f = -V^(q + f) D D' for the whole value.
  lemma ClosedForm(a: int, b: int, P: Pt, q: Pos, X: Gauss, Y: Gauss, p: Pos)
    requires GroupLaw(p) && p % 4 == 3 && HasOrder(P, q, p) && SolinasOrder(a, b, q) && OnCurve2(X, Y, p)
    ensures var V := Vertical(P, X);
            CongG(Mul(Mul(MillerNum(a, b, P, X, Y, p), MillerNum(a, b, P, X, Opposite(Y), p)), Pow(V, Downwards(b))),
                  Scale(-1, Mul(Pow(V, q + Downwards(b)),
                                Mul(MillerDen(a, b, P, X, Y, p), MillerDen(a, b, P, X, Opposite(Y), p)))), p)
  {
    hide HasOrder, Associative, Prime, Mul, Red, Scale, Vertical, OnCurve2, NormLaw, Opposite, CombinedNum, CombinedDen,
         SolinasOrder, Pow, CongG;
    CombinedLaw(a, b, P, q, X, Y, p);
    ExponentSum(a, b, q);
    LawClose(CombinedNum(a, b, P, X, Y, p), CombinedNum(a, b, P, X, Opposite(Y), p),
             CombinedDen(a, b, P, X, Y, p), CombinedDen(a, b, P, X, Opposite(Y), p),
             Vertical(P, X), Upwards(a, b), Downwards(b), -1, p);
  }

  lemma ExponentSum(a: int, b: int, q: Pos)
    requires SolinasOrder(a, b, q)
    ensures Upwards(a, b) > 0 && q + Downwards(b) == Upwards(a, b) + if a < 0 then -1 else 1
  {
    P2Positive(Abs(a));
    hide IPow;
  }

  // The value at (X, Y) times the value at (X, -Y) is -V^q, with V the vertical
  // through P: the lines and verticals through the other multiples cancel.
  lemma MillerLaw(a: int, b: int, P: Pt, q: Pos, X: Gauss, Y: Gauss, p: Pos)
    requires GroupLaw(p) && p % 4 == 3 && HasOrder(P, q, p) && SolinasOrder(a, b, q) && OnCurve2(X, Y, p)
    ensures CongG(Mul(MillerNum(a, b, P, X, Y, p), MillerNum(a, b, P, X, Opposite(Y), p)),
                  Scale(-1, Mul(Pow(Vertical(P, X), q),
                                Mul(MillerDen(a, b, P, X, Y, p), MillerDen(a, b, P, X, Opposite(Y), p)))), p)
  {
    hide HasOrder, Associative, Mul, Red, Scale, Vertical, OnCurve2, Opposite, CombinedNum, MillerDen, SolinasOrder,
         Pow, MillerNum;
    var V, f := Vertical(P, X), Downwards(b);
    var A := Mul(MillerNum(a, b, P, X, Y, p), MillerNum(a, b, P, X, Opposite(Y), p));
    var B := Mul(MillerDen(a, b, P, X, Y, p), MillerDen(a, b, P, X, Opposite(Y), p));
    if CongG(V, ZERO, p) {
      VanishingNum(a, b, P, X, Y, p);
      CongGMul(MillerNum(a, b, P, X, Y, p), ZERO, MillerNum(a, b, P, X, Opposite(Y), p),
               MillerNum(a, b, P, X, Opposite(Y), p), p);
      MulZero(MillerNum(a, b, P, X, Opposite(Y), p));
      PowOfZero(V, q, p);
      VanishingRight(Pow(V, q), B, p);
    } else {
      ClosedForm(a, b, P, q, X, Y, p);
      PowAdd(V, q, f);
      PowNonZero(V, f, p);
      CancelPower(A, B, Pow(V, q), Pow(V, f), p);
    }
  }

  // The closing vertical is a factor of the numerator.
  lemma VanishingNum(a: int, b: int, P: Pt, X: Gauss, Y: Gauss, p: Pos)
    requires CongG(Vertical(P, X), ZERO, p)
    ensures CongG(MillerNum(a, b, P, X, Y, p), ZERO, p)
  {
    hide Mul, Red, Vertical, CombinedNum;
    var N := CombinedNum(a, b, P, X, Y, p);
    CongGMul(N, N, Vertical(P, X), ZERO, p);
    MulZero(N);
  }

  lemma VanishingRight(x: Gauss, B: Gauss, p: Pos)
    requires CongG(x, ZERO, p)
    ensures CongG(Scale(-1, Mul(x, B)), ZERO, p)
  {
    hide Mul, Red, Scale;
    CongGMul(x, ZERO, B, B, p);
    MulZero(B);
    NegateCong(Mul(x, B), ZERO, p);
    assert Scale(-1, ZERO) == ZERO by { MinusZero(); }
  }

  lemma MinusZero()
    ensures Scale(-1, ZERO) == ZERO
  {
  }

  lemma CancelPower(A: Gauss, B: Gauss, E: Gauss, F: Gauss, p: Pos)
    requires Prime(p) && p % 4 == 3 && !CongG(F, ZERO, p)
    requires CongG(Mul(A, F), Scale(-1, Mul(Mul(E, F), B)), p)
    ensures CongG(A, Scale(-1, Mul(E, B)), p)
  {
    hide Mul, Red, Scale;
    MulAssoc(E, F, B); MulComm(F, B); MulAssoc(E, B, F);
    ScaleLeft(-1, Mul(E, B), F);
    QuotientUnique(A, Scale(-1, Mul(E, B)), F, p);
  }

  // ----- the pairing -----

  // The pairing of P with -Q is the inverse of the pairing with Q, where neither
  // numerator nor denominator vanishes.
  lemma OppositePairing(c: Curve, P: Pt, X: Gauss, Y: Gauss, e: Gauss, e': Gauss)
    requires PairingSetting(c, P) && c.solinasa != 0 && OnCurve2(X, Y, c.p)
    requires !CongG(MillerNum(c.solinasa, c.solinasb, P, X, Y, c.p), ZERO, c.p)
    requires !CongG(MillerDen(c.solinasa, c.solinasb, P, X, Y, c.p), ZERO, c.p)
    requires !CongG(MillerDen(c.solinasa, c.solinasb, P, X, Opposite(Y), c.p), ZERO, c.p)
    requires PowerOfRatio(e, MillerNum(c.solinasa, c.solinasb, P, X, Y, c.p),
                          MillerDen(c.solinasa, c.solinasb, P, X, Y, c.p), c.tatepwr, c.p)
    requires PowerOfRatio(e', MillerNum(c.solinasa, c.solinasb, P, X, Opposite(Y), c.p),
                          MillerDen(c.solinasa, c.solinasb, P, X, Opposite(Y), c.p), c.tatepwr, c.p)
    ensures CongG(Mul(e, e'), ONE, c.p)
  {
    hide HasOrder, Associative, Prime, Mul, Red, Scale, Vertical, OnCurve2, Opposite, MillerNum, MillerDen,
         SolinasOrder, Pow, Canonical, CongG;
    var V := Vertical(P, X);
    CofactorPositive(c.p, c.q);
    MillerLaw(c.solinasa, c.solinasb, P, c.q, X, Y, c.p);
    if CongG(V, ZERO, c.p) { VanishingNum(c.solinasa, c.solinasb, P, X, Y, c.p); }
    InversePowers(e, e', MillerNum(c.solinasa, c.solinasb, P, X, Y, c.p),
                  MillerNum(c.solinasa, c.solinasb, P, X, Opposite(Y), c.p),
                  MillerDen(c.solinasa, c.solinasb, P, X, Y, c.p),
                  MillerDen(c.solinasa, c.solinasb, P, X, Opposite(Y), c.p), V, c.p1onq, c.q, c.p);
  }

  lemma InversePowers(e: Gauss, e': Gauss, N: Gauss, N': Gauss, D: Gauss, D': Gauss, V: Gauss, k: nat, q: nat, p: Pos)
    requires Prime(p) && p % 4 == 3 && k * q == p + 1 && (p - 1) * k >= 0
    requires !CongG(D, ZERO, p) && !CongG(D', ZERO, p) && !CongG(V, ZERO, p)
    requires PowerOfRatio(e, N, D, (p - 1) * k, p) && PowerOfRatio(e', N', D', (p - 1) * k, p)
    requires CongG(Mul(N, N'), Scale(-1, Mul(Pow(V, q), Mul(D, D'))), p)
    ensures CongG(Mul(e, e'), ONE, p)
  {
    hide Mul, Red, Scale, Pow, Canonical, Prime, CongG;
    var t := (p - 1) * k;
    var B := Mul(D, D');
    RatioProduct(e, e', N, N', D, D', t, p);
    CongGPow(Mul(N, N'), Scale(-1, Mul(Pow(V, q), B)), t, p);
    EvenExponent(p, k);
    MinusPower(Mul(Pow(V, q), B), t);
    PowMul(Pow(V, q), B, t);
    VerticalPower(V, k, q, p);
    UnitPower(Pow(Pow(V, q), t), Pow(B, t), p);
    CongGChain(Pow(Mul(N, N'), t), Mul(Pow(Pow(V, q), t), Pow(B, t)), Pow(B, t), p);
    CongGChain(Mul(Mul(e, e'), Pow(B, t)), Pow(Mul(N, N'), t), Pow(B, t), p);
    PowNonZero(D, t, p); PowNonZero(D', t, p);
    PowMul(D, D', t);
    CancelOne(Mul(e, e'), Pow(D, t), Pow(D', t), p);
  }

  lemma RatioProduct(e: Gauss, e': Gauss, N: Gauss, N': Gauss, D: Gauss, D': Gauss, t: nat, p: Pos)
    requires CongG(Mul(e, Pow(D, t)), Pow(N, t), p) && CongG(Mul(e', Pow(D', t)), Pow(N', t), p)
    ensures CongG(Mul(Mul(e, e'), Pow(Mul(D, D'), t)), Pow(Mul(N, N'), t), p)
  {
    hide Mul, Red, Pow;
    CongGMul(Mul(e, Pow(D, t)), Pow(N, t), Mul(e', Pow(D', t)), Pow(N', t), p);
    MulSwap(e, Pow(D, t), e', Pow(D', t));
    PowMul(D, D', t); PowMul(N, N', t);
  }

  lemma EvenExponent(p: Pos, k: nat)
    requires p % 4 == 3
    ensures ((p - 1) * k) % 2 == 0
  {
    HalfOfEven(p - 1);
    EvenMultiple(p - 1, (p - 1) / 2, k);
  }

  lemma HalfOfEven(n: int)
    requires n % 4 == 2
    ensures n == 2 * (n / 2)
  {
  }

  lemma EvenMultiple(n: int, h: int, k: int)
    requires n == 2 * h
    ensures (n * k) % 2 == 0
  {
    TwiceProduct(h, k);
    EvenNumber(n * k, h * k);
  }

  lemma TwiceProduct(h: int, k: int)
    ensures (2 * h) * k == 2 * (h * k)
  {
  }

  lemma EvenNumber(x: int, h: int)
    requires x == 2 * h
    ensures x % 2 == 0
  {
  }

  lemma {:induction false} MinusPower(x: Gauss, t: nat)
    requires t % 2 == 0
    ensures Pow(Scale(-1, x), t) == Pow(x, t)
  {
    if t > 0 {
      MinusPower(x, t - 2);
      var y := Scale(-1, x);
      TwoFactors(x, t); TwoFactors(y, t);
      hide Mul, Scale, Pow;
      ScaleProduct(-1, x, -1, x);
      ScaleOne(Mul(x, x));
    }
  }

  lemma TwoFactors(x: Gauss, t: nat)
    requires t >= 2
    ensures Pow(x, t) == Mul(Mul(x, x), Pow(x, t - 2))
  {
    assert Pow(x, t - 1) == Mul(x, Pow(x, t - 2));
    MulAssoc(x, x, Pow(x, t - 2));
  }

  // V^(q t) is one.
  lemma VerticalPower(V: Gauss, k: nat, q: nat, p: Pos)
    requires Prime(p) && p % 4 == 3 && k * q == p + 1 && (p - 1) * k >= 0 && !CongG(V, ZERO, p)
    ensures CongG(Pow(Pow(V, q), (p - 1) * k), ONE, p)
  {
    hide Mul, Red, Pow, Prime, CongG;
    var t := (p - 1) * k;
    RootOfUnity(V, k, q, p);
    PowPow(V, q, t); PowPow(V, t, q);
    assert q * t == t * q;
  }

  lemma UnitPower(u: Gauss, b: Gauss, p: Pos)
    requires CongG(u, ONE, p)
    ensures CongG(Mul(u, b), b, p)
  {
    hide Mul, Red;
    CongGMul(u, ONE, b, b, p);
    MulOne(b);
  }

  lemma CongGChain(x: Gauss, y: Gauss, z: Gauss, p: Pos)
    requires CongG(x, y, p) && CongG(y, z, p)
    ensures CongG(x, z, p)
  {
  }

  lemma CancelOne(x: Gauss, d: Gauss, d': Gauss, p: Pos)
    requires Prime(p) && p % 4 == 3 && !CongG(d, ZERO, p) && !CongG(d', ZERO, p)
    requires CongG(Mul(x, Mul(d, d')), Mul(d, d'), p)
    ensures CongG(x, ONE, p)
  {
    hide Mul, Red, CongG;
    MulAssoc(x, d, d');
    QuotientUnique(Mul(x, d), d, d', p);
    MulOne(d);
    QuotientUnique(x, ONE, d, p);
  }

  // ----- the points on the lines -----

  // A line is linear in Y with coefficient 1 and passes through its point.
  lemma LineThrough(T: Pt, l: int, X: Gauss, Y: Gauss, Y': Gauss)
    requires T.A?
    ensures Line(T, l, G(T.x, 0), G(T.y, 0)) == ZERO
    ensures Sub(Line(T, l, X, Y), Line(T, l, X, Y')) == Sub(Y, Y')
  {
    assert l * 0 == 0;
    hide Scale;
    assert Scale(l, ZERO) == ZERO by { ScaleOfZero(l); }
  }

  lemma ScaleOfZero(l: int)
    ensures Scale(l, ZERO) == ZERO
  {
    assert l * 0 == 0;
  }

  // The chord passes through its second point too.
  lemma ChordThrough(S: Pt, T: Pt, p: Pos)
    requires Field(p) && S.A? && T.A? && OnCurve(S, p) && OnCurve(T, p) && S.x != T.x
    ensures ChordLine(S, T, G(S.x, 0), G(S.y, 0), p) == ZERO
    ensures CongG(ChordLine(S, T, G(T.x, 0), G(T.y, 0), p), ZERO, p)
  {
    hide Rem, ChordSlope, Line, Cong, OnCurve, Prime;
    var k := ChordSlope(S, T, p);
    ChordSlopeCorrect(S, T, p);
    LineThrough(S, k, ZERO, ZERO, ZERO);
    RealLine(S, k, T.x, T.y);
    CongSub(k * (T.x - S.x), T.y - S.y, p);
    NegatedZero(T.y - S.y - k * (T.x - S.x), p);
    RealCong(T.y - S.y - k * (T.x - S.x), 0, p);
  }

  lemma RealLine(S: Pt, k: int, x: int, y: int)
    requires S.A?
    ensures Line(S, k, G(x, 0), G(y, 0)) == G(y - S.y - k * (x - S.x), 0)
  {
    assert k * 0 == 0;
  }

  lemma NegatedZero(x: int, p: Pos)
    requires Cong(-x, 0, p)
    ensures Cong(x, 0, p)
  {
    hide Rem;
    CongAdd(0, 0, -x, 0, p);
  }

  // f_(2^i) vanishes at 2^j P for every j below i.
  lemma {:induction false} NumVanishes(i: nat, j: nat, P: Pt, q: Pos, p: Pos)
    requires GroupLaw(p) && HasOrder(P, q, p) && q % 2 == 1 && j < i
    ensures var T := Times(P2(j), P, p); T.A? && Num(i, P, G(T.x, 0), G(T.y, 0), p) == ZERO
  {
    hide Times, Plus, HasOrder, OnCurve, Associative, Prime, Mul, Scale, TangentLine, IPow, Num, TangentSlope;
    NextDouble(j, P, q, p);
    var T := Times(P2(j), P, p);
    var X, Y := G(T.x, 0), G(T.y, 0);
    NumStep(i - 1, P, X, Y, p);
    if j == i - 1 {
      TangentThrough(T, p);
      MulZero(Mul(Num(j, P, X, Y, p), Num(j, P, X, Y, p)));
    } else {
      NumVanishes(i - 1, j, P, q, p);
      MulZero(ZERO);
      MulZero(TangentLine(Times(P2(i - 1), P, p), X, Y, p));
    }
  }

  lemma TangentThrough(T: Pt, p: Pos)
    requires T.A?
    ensures TangentLine(T, G(T.x, 0), G(T.y, 0), p) == ZERO
  {
    hide TangentSlope;
    LineThrough(T, TangentSlope(T, p), ZERO, ZERO, ZERO);
  }

  // The whole numerator vanishes at 2^j P for every j below |a|, for b != 0 at
  // 2^|a| P, and at P itself.
  lemma MillerVanishes(a: int, b: int, j: nat, P: Pt, q: Pos, p: Pos)
    requires GroupLaw(p) && HasOrder(P, q, p) && SolinasOrder(a, b, q) && (j < Abs(a) || (j == Abs(a) && b != 0))
    ensures var T := Times(P2(j), P, p); T.A? && MillerNum(a, b, P, G(T.x, 0), G(T.y, 0), p) == ZERO
  {
    hide Times, Plus, HasOrder, OnCurve, Associative, Prime, Mul, IPow, Num, SolinasOrder, Shifted, SignedNum,
         ChordSlope, Vertical;
    SolinasOdd(a, b, q);
    NextDouble(j, P, q, p);
    var T := Times(P2(j), P, p);
    var X, Y := G(T.x, 0), G(T.y, 0);
    MulZero(Vertical(P, X));
    if j < Abs(a) {
      NumVanishes(Abs(a), j, P, q, p);
      MulZero(SignedNum(b, P, X, Y, p));
      MulZero(ChordLine(Times(P2(Abs(a)), P, p), Shifted(b, P, p), X, Y, p));
    } else {
      ProperChord(a, b, P, q, p);
      ChordThrough(T, Shifted(b, P, p), p);
      MulZero(Mul(Num(j, P, X, Y, p), SignedNum(b, P, X, Y, p)));
    }
  }
}
