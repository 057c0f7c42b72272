// The chord-and-tangent law keeps the curve y^2 = x^3 + 1 over F_p^2.
module Closure {
  import opened NumberTheory
  import opened Powers
  import opened Fp2
  import opened Curves
  import opened PointAddition

  // How far (x, y) is from the curve.
  function Residue(x: Gauss, y: Gauss): Gauss {
    Sub(Sub(Mul(y, y), Mul(Mul(x, x), x)), ONE)
  }

  ghost predicate OnCurve2(x: Gauss, y: Gauss, p: Pos) {
    CongG(Mul(y, y), Add(Mul(Mul(x, x), x), ONE), p)
  }

  lemma OnCurveResidue(x: Gauss, y: Gauss, p: Pos)
    ensures OnCurve2(x, y, p) <==> CongG(Residue(x, y), ZERO, p)
  {
    hide Rem, Mul;
    var u, v := Mul(y, y), Mul(Mul(x, x), x);
    CongSub(u.a, v.a + 1, p); CongSub(u.b, v.b, p);
  }

  lemma ResidueCong(x: Gauss, x': Gauss, y: Gauss, y': Gauss, p: Pos)
    requires CongG(x, x', p) && CongG(y, y', p)
    ensures CongG(Residue(x, y), Residue(x', y'), p)
  {
    hide Rem, Mul;
    CongGMul(y, y', y, y', p);
    CongGMul(x, x', x, x', p);
    CongGMul(Mul(x, x), Mul(x', x'), x, x', p);
    CongGAdd(Mul(y, y), Mul(y', y'), Mul(Mul(x, x), x), Mul(Mul(x', x'), x'), p);
    CongGAdd(Sub(Mul(y, y), Mul(Mul(x, x), x)), Sub(Mul(y', y'), Mul(Mul(x', x'), x')), ONE, ONE, p);
  }

  // ----- the points of a line, (x + w, y + l w) -----

  function Bracket(x: Gauss, y: Gauss, l: Gauss, v: Gauss): Gauss {
    Add(Sub(Scale(2, Mul(y, l)), Scale(3, Mul(x, x))), v)
  }

  lemma SquareOfSum(a: Gauss, b: Gauss)
    ensures Mul(Add(a, b), Add(a, b)) == Add(Mul(a, a), Add(Scale(2, Mul(a, b)), Mul(b, b)))
  {
    MulDistr(a, b, Add(a, b)); MulDistr(a, b, a); MulDistr(a, b, b);
    MulComm(a, b);
    MulDistr(a, a, b); MulDistr(b, a, b);
  }

  lemma CubeOfSum(a: Gauss, w: Gauss)
    ensures Mul(Mul(Add(a, w), Add(a, w)), Add(a, w))
         == Add(Mul(Mul(a, a), a), Mul(w, Add(Scale(3, Mul(a, a)), Mul(w, Add(Scale(3, a), w)))))
  {
    SquareOfSum(a, w);
    hide Mul;
    var s := Add(Scale(2, Mul(a, w)), Mul(w, w));
    MulDistr(Mul(a, a), s, Add(a, w));
    MulDistr(Mul(a, a), a, w);
    MulDistr(s, a, w);
    MulDistr(Scale(2, Mul(a, w)), Mul(w, w), a); MulDistr(Scale(2, Mul(a, w)), Mul(w, w), w);
    MulDistr(w, Scale(3, Mul(a, a)), Mul(w, Add(Scale(3, a), w)));
    MulDistr(w, Scale(3, a), w); MulDistr(w, Mul(w, Scale(3, a)), Mul(w, w));
    MulScale(w, 3, Mul(a, a)); MulScale(w, 3, a); MulScale(w, 3, Mul(w, a));
    MulScale(a, 2, Mul(a, w)); MulComm(a, Scale(2, Mul(a, w)));
    MulScale(w, 2, Mul(a, w)); MulComm(w, Scale(2, Mul(a, w)));
    CubeProducts(a, w);
  }

  lemma CubeProducts(a: Gauss, w: Gauss)
    ensures Mul(a, Mul(a, w)) == Mul(Mul(a, a), w) == Mul(w, Mul(a, a))
    ensures Mul(w, Mul(a, w)) == Mul(Mul(w, w), a) == Mul(w, Mul(w, a))
    ensures Mul(Mul(w, w), w) == Mul(w, Mul(w, w))
  {
    MulAssoc(a, a, w); MulComm(w, Mul(a, a)); MulComm(a, w); MulAssoc(w, w, a); MulAssoc(w, w, w);
  }

  lemma LineSquare(y: Gauss, l: Gauss, w: Gauss)
    ensures Mul(Add(y, Mul(l, w)), Add(y, Mul(l, w)))
         == Add(Mul(y, y), Mul(w, Add(Scale(2, Mul(y, l)), Mul(w, Mul(l, l)))))
  {
    SquareOfSum(y, Mul(l, w));
    hide Mul;
    MulAssoc(y, l, w); MulComm(Mul(y, l), w); MulScale(w, 2, Mul(y, l));
    MulSwap(l, w, l, w); MulComm(Mul(l, l), Mul(w, w)); MulAssoc(w, w, Mul(l, l));
    MulDistr(w, Scale(2, Mul(y, l)), Mul(w, Mul(l, l)));
  }

  lemma LineResidue(x: Gauss, y: Gauss, l: Gauss, w: Gauss)
    ensures Residue(Add(x, w), Add(y, Mul(l, w)))
         == Add(Residue(x, y), Mul(w, Bracket(x, y, l, Mul(w, Sub(Mul(l, l), Add(Scale(3, x), w))))))
  {
    LineSquare(y, l, w);
    CubeOfSum(x, w);
    hide Mul;
    var r, s := Add(Scale(3, x), w), Mul(l, l);
    MulSub(w, s, r);
    MulSub(w, Add(Scale(2, Mul(y, l)), Mul(w, s)), Add(Scale(3, Mul(x, x)), Mul(w, r)));
    assert Sub(Add(Scale(2, Mul(y, l)), Mul(w, s)), Add(Scale(3, Mul(x, x)), Mul(w, r)))
        == Bracket(x, y, l, Sub(Mul(w, s), Mul(w, r)));
  }

  lemma LineCong(x: Gauss, y: Gauss, l: Gauss, w: Gauss, v: Gauss, x': Gauss, y': Gauss, p: Pos)
    requires OnCurve2(x, y, p) && CongG(x', Add(x, w), p) && CongG(y', Add(y, Mul(l, w)), p)
    requires CongG(Mul(l, l), Add(v, Add(Scale(3, x), w)), p)
    ensures CongG(Residue(x', y'), Mul(w, Bracket(x, y, l, Mul(w, v))), p)
  {
    OnCurveResidue(x, y, p);
    ResidueCong(x', Add(x, w), y', Add(y, Mul(l, w)), p);
    LineResidue(x, y, l, w);
    hide Rem, Red, Mul, Residue;
    var r, s := Add(Scale(3, x), w), Mul(l, l);
    CongGAdd(s, Add(v, r), r, r, p);
    assert Sub(Add(v, r), r) == v;
    CongGMul(w, w, Sub(s, r), v, p);
    var t := Sub(Scale(2, Mul(y, l)), Scale(3, Mul(x, x)));
    CongGAdd(t, t, Mul(w, Sub(s, r)), Mul(w, v), p);
    CongGMul(w, w, Bracket(x, y, l, Mul(w, Sub(s, r))), Bracket(x, y, l, Mul(w, v)), p);
    CongGAdd(Residue(x, y), ZERO, Mul(w, Bracket(x, y, l, Mul(w, Sub(s, r)))), Mul(w, Bracket(x, y, l, Mul(w, v))), p);
    assert Add(ZERO, Mul(w, Bracket(x, y, l, Mul(w, v)))) == Mul(w, Bracket(x, y, l, Mul(w, v)));
  }

  lemma NegateBoth(x: Gauss, y: Gauss)
    ensures Mul(x, Sub(ZERO, y)) == Sub(ZERO, Mul(x, y)) && Mul(Sub(ZERO, x), Sub(ZERO, y)) == Mul(x, y)
  {
  }

  // l^2 = x1 + x2 + x3 for the three points of a line.
  lemma SlopeSquare(x1: Gauss, x2: Gauss, l: Gauss, x3: Gauss, p: Pos)
    requires CongG(x3, Sub(Sub(Mul(l, l), x1), x2), p)
    ensures CongG(Mul(l, l), Add(Sub(x2, x1), Add(Scale(3, x1), Sub(x3, x1))), p)
    ensures CongG(Mul(l, l), Add(Sub(x3, x1), Add(Scale(3, x1), Sub(x2, x1))), p)
  {
    hide Rem, Mul;
    CongGAdd(x3, Sub(Sub(Mul(l, l), x1), x2), Add(x1, x2), Add(x1, x2), p);
    assert Add(Sub(Sub(Mul(l, l), x1), x2), Add(x1, x2)) == Mul(l, l);
    assert Add(Sub(x2, x1), Add(Scale(3, x1), Sub(x3, x1))) == Add(x3, Add(x1, x2));
    assert Add(Sub(x3, x1), Add(Scale(3, x1), Sub(x2, x1))) == Add(x3, Add(x1, x2));
  }

  lemma ReflectedOrdinate(x1: Gauss, y1: Gauss, l: Gauss, x3: Gauss, y3: Gauss, p: Pos)
    requires CongG(y3, Sub(Mul(l, Sub(x1, x3)), y1), p)
    ensures CongG(Sub(ZERO, y3), Add(y1, Mul(l, Sub(x3, x1))), p)
  {
    NegateBoth(l, Sub(x3, x1));
    hide Rem, Mul;
    assert Sub(ZERO, Sub(x3, x1)) == Sub(x1, x3);
    CongGAdd(ZERO, ZERO, y3, Sub(Mul(l, Sub(x1, x3)), y1), p);
    assert Sub(ZERO, Sub(Mul(l, Sub(x1, x3)), y1)) == Add(y1, Mul(l, Sub(x3, x1)));
  }

  lemma ThirdCloses(x1: Gauss, y1: Gauss, x2: Gauss, l: Gauss, x3: Gauss, y3: Gauss, p: Pos)
    requires OnCurve2(x1, y1, p) && ThirdPoint(x1, y1, x2, l, x3, y3, p)
    requires CongG(Bracket(x1, y1, l, Mul(Sub(x3, x1), Sub(x2, x1))), ZERO, p)
    ensures OnCurve2(x3, y3, p)
  {
    hide Rem, Mul, Residue, Bracket;
    var u, d := Sub(x3, x1), Sub(x2, x1);
    assert Add(x1, u) == x3;
    SlopeSquare(x1, x2, l, x3, p);
    ReflectedOrdinate(x1, y1, l, x3, y3, p);
    LineCong(x1, y1, l, u, d, x3, Sub(ZERO, y3), p);
    CongGMul(u, u, Bracket(x1, y1, l, Mul(u, d)), ZERO, p);
    MulZero(u);
    SameResidue(x3, y3);
    OnCurveResidue(x3, y3, p);
  }

  lemma SameResidue(x: Gauss, y: Gauss)
    ensures Residue(x, Sub(ZERO, y)) == Residue(x, y)
  {
    NegateBoth(y, y);
  }

  // The chord meets the curve again in the abscissa of the third point.
  lemma ChordBracket(x1: Gauss, y1: Gauss, x2: Gauss, y2: Gauss, l: Gauss, x3: Gauss, p: Pos)
    requires Prime(p) && p % 4 == 3 && OnCurve2(x1, y1, p) && OnCurve2(x2, y2, p) && !CongG(Sub(x2, x1), ZERO, p)
    requires CongG(Mul(l, Sub(x2, x1)), Sub(y2, y1), p) && CongG(x3, Sub(Sub(Mul(l, l), x1), x2), p)
    ensures CongG(Bracket(x1, y1, l, Mul(Sub(x3, x1), Sub(x2, x1))), ZERO, p)
  {
    hide Rem, Mul, Residue, Bracket, OnCurve2;
    var u, d := Sub(x3, x1), Sub(x2, x1);
    assert Add(x1, d) == x2 && Add(y1, Sub(y2, y1)) == y2;
    CongGAdd(y1, y1, Mul(l, d), Sub(y2, y1), p);
    SlopeSquare(x1, x2, l, x3, p);
    LineCong(x1, y1, l, d, u, x2, y2, p);
    OnCurveResidue(x2, y2, p);
    MulComm(u, d); MulZero(d);
    var b := Bracket(x1, y1, l, Mul(u, d));
    MulComm(d, b);
    QuotientUnique(b, ZERO, d, p);
  }

  lemma ChordCloses(x1: Gauss, y1: Gauss, x2: Gauss, y2: Gauss, x3: Gauss, y3: Gauss, p: Pos)
    requires Prime(p) && p % 4 == 3 && OnCurve2(x1, y1, p) && OnCurve2(x2, y2, p)
    requires !CongG(Sub(x2, x1), ZERO, p) && Chord(x1, y1, x2, y2, x3, y3, p)
    ensures OnCurve2(x3, y3, p)
  {
    hide Rem, Mul, Residue, Bracket, OnCurve2;
    var l :| CongG(Mul(l, Sub(x2, x1)), Sub(y2, y1), p) && ThirdPoint(x1, y1, x2, l, x3, y3, p);
    ChordBracket(x1, y1, x2, y2, l, x3, p);
    ThirdCloses(x1, y1, x2, l, x3, y3, p);
  }

  lemma TangentBracket(x1: Gauss, y1: Gauss, l: Gauss, x3: Gauss, p: Pos)
    requires CongG(Mul(l, Add(y1, y1)), Mul(Scale(3, x1), x1), p)
    ensures CongG(Bracket(x1, y1, l, Mul(Sub(x3, x1), Sub(x1, x1))), ZERO, p)
  {
    hide Rem, Mul, Residue, OnCurve2;
    MulZero(Sub(x3, x1));
    assert Sub(x1, x1) == ZERO;
    MulDistr(l, y1, y1); MulDistr(l, l, y1); MulComm(l, y1);
    MulComm(Scale(3, x1), x1); MulScale(x1, 3, x1);
    CongGAdd(Mul(l, Add(y1, y1)), Mul(Scale(3, x1), x1), Scale(3, Mul(x1, x1)), Scale(3, Mul(x1, x1)), p);
  }

  lemma TangentCloses(x1: Gauss, y1: Gauss, x3: Gauss, y3: Gauss, p: Pos)
    requires OnCurve2(x1, y1, p) && Tangent(x1, y1, x3, y3, p)
    ensures OnCurve2(x3, y3, p)
  {
    hide Rem, Mul, Residue, Bracket, OnCurve2;
    var l :| CongG(Mul(l, Add(y1, y1)), Mul(Scale(3, x1), x1), p) && ThirdPoint(x1, y1, x1, l, x3, y3, p);
    TangentBracket(x1, y1, l, x3, p);
    ThirdCloses(x1, y1, x1, l, x3, y3, p);
  }

  // ----- point_add keeps the curve -----

  // On points of the curve the divisor of point_add vanishes exactly when a point
  // of order two meets its own abscissa; the answer then has abscissa -2 x and
  // ordinate 0, which for p > 3 is not on the curve.  Every other sum is.
  lemma SumCloses(x1: Gauss, y1: Gauss, x2: Gauss, y2: Gauss, x3: Gauss, y3: Gauss, p: Pos)
    requires Prime(p) && p % 4 == 3 && FiniteSum(x1, y1, x2, y2, false, x3, y3, p)
    requires Canonical(x1, p) && Canonical(y1, p) && Canonical(x2, p) && Canonical(y2, p)
    requires OnCurve2(x1, y1, p) && OnCurve2(x2, y2, p)
    ensures Canonical(x3, p) && Canonical(y3, p)
    ensures OnCurve2(x3, y3, p) <==> !(x1 == x2 && y1 == ZERO) || p == 3
    ensures x1 == x2 && y1 == ZERO ==> CongG(x3, Scale(-2, x1), p) && y3 == ZERO
  {
    hide Mul, Add, Sub, Scale, OnCurve2, Chord, Tangent, CongG, ThirdPoint, Canonical;
    if x1 != x2 {
      DistinctAbscissas(x1, x2, p);
      ChordCloses(x1, y1, x2, y2, x3, y3, p);
    } else if y1 != ZERO {
      if CongG(Add(y1, y1), ZERO, p) { DoubleIsZero(y1, p); }
      TangentCloses(x1, y1, x3, y3, p);
    } else {
      TwiceZero(p);
      FlatThird(x1, x3, y3, p);
    }
  }

  lemma TwiceZero(p: Pos)
    ensures CongG(Add(ZERO, ZERO), ZERO, p)
  {
  }

  // The line of slope 0 through a point of order two.
  lemma FlatThird(x: Gauss, x3: Gauss, y3: Gauss, p: Pos)
    requires Prime(p) && p % 4 == 3 && OnCurve2(x, ZERO, p) && ThirdPoint(x, ZERO, x, ZERO, x3, y3, p)
    requires Canonical(y3, p)
    ensures CongG(x3, Scale(-2, x), p) && y3 == ZERO
    ensures OnCurve2(x3, ZERO, p) <==> p == 3
  {
    hide Mul, Rem, ThirdPoint, Scale;
    FlatCoordinates(x, x3, y3, p);
    FlatCube(x, x3, p);
    NineIsZero(p);
  }

  lemma FlatCoordinates(x: Gauss, x3: Gauss, y3: Gauss, p: Pos)
    requires ThirdPoint(x, ZERO, x, ZERO, x3, y3, p) && Canonical(y3, p)
    ensures CongG(x3, Scale(-2, x), p) && y3 == ZERO
  {
    hide Mul, CongG, Scale, Sub, Canonical;
    FlatIdentities(x, Sub(x, x3));
    CanonicalIsZero(y3, p);
  }

  lemma FlatIdentities(x: Gauss, u: Gauss)
    ensures Sub(Sub(Mul(ZERO, ZERO), x), x) == Scale(-2, x) && Sub(Mul(ZERO, u), ZERO) == ZERO
  {
    MulZero(ZERO);
    MulZero(u);
    hide Mul;
  }

  lemma CanonicalIsZero(y: Gauss, p: Pos)
    requires Canonical(y, p) && CongG(y, ZERO, p)
    ensures y == ZERO
  {
    CongSmall(y.a, 0, p); CongSmall(y.b, 0, p);
  }

  // x^3 = -1 and x3 = -2 x make x3^3 + 1 equal to 9.
  lemma FlatCube(x: Gauss, x3: Gauss, p: Pos)
    requires OnCurve2(x, ZERO, p) && CongG(x3, Scale(-2, x), p)
    ensures OnCurve2(x3, ZERO, p) <==> Cong(9, 0, p)
  {
    MulZero(ZERO);
    CubeOfScale(x);
    hide Mul, Rem;
    var u := Scale(-2, x);
    var c := Mul(Mul(x, x), x);
    CongGMul(x3, u, x3, u, p);
    CongGMul(Mul(x3, x3), Mul(u, u), x3, u, p);
    CongGAdd(Mul(Mul(x3, x3), x3), Scale(-8, c), ONE, ONE, p);
    NineFrom(c, p);
  }

  lemma CubeOfScale(x: Gauss)
    ensures var u := Scale(-2, x); Mul(Mul(u, u), u) == Scale(-8, Mul(Mul(x, x), x))
  {
    var u := Scale(-2, x);
    MulScale(u, -2, x); MulComm(u, x); MulScale(x, -2, x);
    assert Mul(u, u) == Scale(4, Mul(x, x));
    hide Mul;
    MulScale(Mul(u, u), -2, x);
    MulComm(Mul(u, u), x); MulScale(x, 4, Mul(x, x)); MulComm(x, Mul(x, x));
  }

  lemma NineFrom(c: Gauss, p: Pos)
    requires CongG(ZERO, Add(c, ONE), p)
    ensures CongG(Add(Scale(-8, c), ONE), G(9, 0), p)
  {
    assert Cong(0, c.a + 1, p) && Cong(0, c.b, p);
    hide Rem;
    CongMul(-8, -8, 0, c.a + 1, p);
    CongMul(-8, -8, 0, c.b, p);
    CongAdd(9, 9, -8 * 0, -8 * (c.a + 1), p);
  }

  lemma NineIsZero(p: Pos)
    requires Prime(p) && p % 4 == 3
    ensures Cong(9, 0, p) <==> p == 3
  {
    if p > 3 {
      CanonicalNonZero(3, p);
      NonZeroMul(3, 3, p);
    }
  }

  lemma DistinctAbscissas(x1: Gauss, x2: Gauss, p: Pos)
    requires Canonical(x1, p) && Canonical(x2, p) && x1 != x2
    ensures !CongG(Sub(x2, x1), ZERO, p)
  {
    if CongG(Sub(x2, x1), ZERO, p) {
      CongSub(x2.a, x1.a, p); CongSub(x2.b, x1.b, p);
      CongSmall(x2.a, x1.a, p); CongSmall(x2.b, x1.b, p);
    }
  }

  lemma DoubleIsZero(y: Gauss, p: Pos)
    requires Prime(p) && p > 2 && Canonical(y, p) && CongG(Add(y, y), ZERO, p)
    ensures y == ZERO
  {
    hide Rem;
    TwoNotZero(p);
    assert y.a + y.a == 2 * y.a && y.b + y.b == 2 * y.b;
    EuclidLemma(2, y.a, p); EuclidLemma(2, y.b, p);
    CongSmall(y.a, 0, p); CongSmall(y.b, 0, p);
  }

  // point_valid_p
  method PointValid(P: Point, p: Pos) returns (result: bool)
    requires P.x != P.y
    ensures result <==> P.infinity || OnCurve2(P.x.Val(), P.y.Val(), p)
  {
    result := true;
    if P.infinity { return; }
    ghost var x, y := P.x.Val(), P.y.Val();
    var error := new Elem();
    var temp := new Elem();
    error.SetMul(P.x, P.x, p);
    error.SetMul(error, P.x, p);
    ghost var cube := error.Val();
    temp.SetMul(P.y, P.y, p);
    ghost var square := temp.Val();
    error.SetSub(temp, error, p);
    ghost var e := error.Val();
    error.SetSubUi(error, 1, p);
    ResidueComputed(x, y, cube, square, e, error.Val(), p);
    if error.a != 0 || error.b != 0 {
      result := false;
    }
  }

  lemma ResidueComputed(x: Gauss, y: Gauss, cube: Gauss, square: Gauss, e: Gauss, r: Gauss, p: Pos)
    requires cube == Red(Mul(Red(Mul(x, x), p), x), p) && square == Red(Mul(y, y), p)
    requires CongG(e, Sub(square, cube), p) && (Canonical(square, p) && Canonical(cube, p) ==> Canonical(e, p))
    requires r == G(Rem(e.a - 1, p), e.b)
    ensures r == ZERO <==> OnCurve2(x, y, p)
  {
    hide Rem, Mul, Residue, OnCurve2, Canonical;
    CanonicalRed(Mul(x, x), p); CanonicalRed(Mul(Red(Mul(x, x), p), x), p); CanonicalRed(Mul(y, y), p);
    hide Red;
    OnCurveResidue(x, y, p);
    CongGMul(Red(Mul(x, x), p), Mul(x, x), x, x, p);
    CongGAdd(square, Mul(y, y), cube, Mul(Mul(x, x), x), p);
    LessOne(e, Sub(Mul(y, y), Mul(Mul(x, x), x)), r, p);
    assert Residue(x, y) == Sub(Sub(Mul(y, y), Mul(Mul(x, x), x)), ONE) by { ResidueIs(x, y); }
  }

  lemma ResidueIs(x: Gauss, y: Gauss)
    ensures Residue(x, y) == Sub(Sub(Mul(y, y), Mul(Mul(x, x), x)), ONE)
  {
  }

  lemma LessOne(e: Gauss, t: Gauss, r: Gauss, p: Pos)
    requires Canonical(e, p) && CongG(e, t, p) && r == G(Rem(e.a - 1, p), e.b)
    ensures r == ZERO <==> CongG(Sub(t, ONE), ZERO, p)
  {
    CongMod(e.a - 1, p);
    assert Cong(r.a, e.a - 1, p);
    hide Rem;
    CongGAdd(e, t, ONE, ONE, p);
    assert CongG(r, Sub(e, ONE), p);
    if CongG(r, ZERO, p) { CongSmall(r.a, 0, p); CongSmall(r.b, 0, p); }
  }
}
