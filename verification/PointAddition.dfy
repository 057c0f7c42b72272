// point_add: the chord-and-tangent law over F_p^2, and what it computes on the
// points of E/F_p.
module PointAddition {
  import opened NumberTheory
  import opened Powers
  import opened EllipticCurve
  import opened Fp2
  import opened Curves

  // (x3, y3) is the reflected third point on the line of slope l through
  // (x1, y1) and a point with abscissa x2.
  ghost predicate ThirdPoint(x1: Gauss, y1: Gauss, x2: Gauss, l: Gauss, x3: Gauss, y3: Gauss, p: Pos) {
    && CongG(x3, Sub(Sub(Mul(l, l), x1), x2), p)
    && CongG(y3, Sub(Mul(l, Sub(x1, x3)), y1), p)
  }

  ghost predicate Chord(x1: Gauss, y1: Gauss, x2: Gauss, y2: Gauss, x3: Gauss, y3: Gauss, p: Pos) {
    exists l :: CongG(Mul(l, Sub(x2, x1)), Sub(y2, y1), p) && ThirdPoint(x1, y1, x2, l, x3, y3, p)
  }

  ghost predicate Tangent(x1: Gauss, y1: Gauss, x3: Gauss, y3: Gauss, p: Pos) {
    exists l :: CongG(Mul(l, Add(y1, y1)), Mul(Scale(3, x1), x1), p) && ThirdPoint(x1, y1, x1, l, x3, y3, p)
  }

  ghost predicate Separate(R: Point, P: Point) {
    R.x != R.y && P.x != P.y && (R == P || {R.x, R.y} !! {P.x, P.y})
  }

  // The branch for equal abscissas: the tangent at P, or slope 0 when its
  // divisor is zero.
  method TangentAdd(R: Point, P: Point, p: Pos)
    requires Separate(R, P)
    modifies R.x, R.y
    ensures var x1, y1 := old(P.x.Val()), old(P.y.Val());
            && (Prime(p) && p % 4 == 3 && !CongG(Add(y1, y1), ZERO, p) ==> Tangent(x1, y1, R.x.Val(), R.y.Val(), p))
            && (CongG(Add(y1, y1), ZERO, p) ==> ThirdPoint(x1, y1, x1, ZERO, R.x.Val(), R.y.Val(), p))
            && (Canonical(x1, p) && Canonical(y1, p) ==> Canonical(R.x.Val(), p) && Canonical(R.y.Val(), p))
  {
    hide Rem, Mul, Red, Scale, Canonical;
    ghost var x1, y1 := P.x.Val(), P.y.Val();
    var lambda := new Elem();
    var temp := new Elem();
    var temp2 := new Elem();
    lambda.SetAdd(P.x, P.x, p);
    ghost var n0 := lambda.Val();
    lambda.SetAdd(lambda, P.x, p);
    ghost var n1 := lambda.Val();
    lambda.SetMul(lambda, P.x, p);
    ghost var n := lambda.Val();
    temp.SetAdd(P.y, P.y, p);
    ghost var d := temp.Val();
    lambda.SetDiv(lambda, temp, p);
    ghost var l := lambda.Val();
    temp.Set(P.x);
    R.x.SetSqr(lambda, p);
    ghost var s := R.x.Val();
    temp2.SetAdd(temp, temp, p);
    ghost var dx := temp2.Val();
    R.x.SetSub(R.x, temp2, p);
    ghost var x3 := R.x.Val();
    temp.SetSub(temp, R.x, p);
    ghost var u := temp.Val();
    temp.SetMul(temp, lambda, p);
    ghost var w := temp.Val();
    R.y.SetSub(temp, P.y, p);
    CanonicalRed(Mul(l, l), p); CanonicalRed(Mul(u, l), p);
    DoubledAbscissa(x1, l, s, dx, x3, p);
    ThirdFromCode(x1, y1, x1, l, x3, u, w, R.y.Val(), p);
    if Prime(p) && p % 4 == 3 && !CongG(Add(y1, y1), ZERO, p) {
      TangentFromCode(x1, y1, n0, n1, n, d, l, p);
    }
  }

  // The branch for different abscissas: the chord through P and Q, or slope 0
  // when its divisor is zero.
  method ChordAdd(R: Point, P: Point, Q: Point, p: Pos)
    requires Separate(R, P) && Separate(R, Q)
    modifies R.x, R.y
    ensures var x1, y1, x2, y2 := old(P.x.Val()), old(P.y.Val()), old(Q.x.Val()), old(Q.y.Val());
            && (Prime(p) && p % 4 == 3 && !CongG(Sub(x2, x1), ZERO, p) ==>
                  Chord(x1, y1, x2, y2, R.x.Val(), R.y.Val(), p))
            && (CongG(Sub(x2, x1), ZERO, p) ==> ThirdPoint(x1, y1, x2, ZERO, R.x.Val(), R.y.Val(), p))
            && (Canonical(x1, p) && Canonical(y1, p) && Canonical(x2, p) ==>
                  Canonical(R.x.Val(), p) && Canonical(R.y.Val(), p))
  {
    hide Rem, Mul, Red, Scale, Canonical;
    ghost var x1, y1, x2, y2 := P.x.Val(), P.y.Val(), Q.x.Val(), Q.y.Val();
    var lambda := new Elem();
    var temp := new Elem();
    var temp2 := new Elem();
    lambda.SetSub(Q.y, P.y, p);
    ghost var n := lambda.Val();
    temp.SetSub(Q.x, P.x, p);
    ghost var d := temp.Val();
    lambda.SetDiv(lambda, temp, p);
    ghost var l := lambda.Val();
    temp.Set(P.x);
    temp2.SetSqr(lambda, p);
    ghost var s := temp2.Val();
    temp2.SetSub(temp2, temp, p);
    ghost var s1 := temp2.Val();
    R.x.SetSub(temp2, Q.x, p);
    ghost var x3 := R.x.Val();
    temp.SetSub(temp, R.x, p);
    ghost var u := temp.Val();
    temp.SetMul(temp, lambda, p);
    ghost var w := temp.Val();
    R.y.SetSub(temp, P.y, p);
    CanonicalRed(Mul(l, l), p); CanonicalRed(Mul(u, l), p);
    ChordAbscissa(x1, x2, l, s, s1, x3, p);
    ThirdFromCode(x1, y1, x2, l, x3, u, w, R.y.Val(), p);
    if Prime(p) && p % 4 == 3 && !CongG(Sub(x2, x1), ZERO, p) {
      ChordFromCode(x1, y1, x2, y2, n, d, l, p);
    }
  }

  lemma DoubledAbscissa(x1: Gauss, l: Gauss, s: Gauss, dx: Gauss, x3: Gauss, p: Pos)
    requires CongG(s, Mul(l, l), p) && CongG(dx, Add(x1, x1), p) && CongG(x3, Sub(s, dx), p)
    ensures CongG(x3, Sub(Sub(Mul(l, l), x1), x1), p)
  {
    hide Rem, Mul;
    CongGAdd(s, Mul(l, l), dx, Add(x1, x1), p);
    assert Sub(Mul(l, l), Add(x1, x1)) == Sub(Sub(Mul(l, l), x1), x1);
  }

  lemma ChordAbscissa(x1: Gauss, x2: Gauss, l: Gauss, s: Gauss, s1: Gauss, x3: Gauss, p: Pos)
    requires CongG(s, Mul(l, l), p) && CongG(s1, Sub(s, x1), p) && CongG(x3, Sub(s1, x2), p)
    ensures CongG(x3, Sub(Sub(Mul(l, l), x1), x2), p)
  {
    hide Rem, Mul;
    CongGAdd(s, Mul(l, l), x1, x1, p);
    CongGAdd(s1, Sub(Mul(l, l), x1), x2, x2, p);
  }

  lemma ThirdFromCode(x1: Gauss, y1: Gauss, x2: Gauss, l: Gauss, x3: Gauss, u: Gauss, w: Gauss, y3: Gauss, p: Pos)
    requires CongG(x3, Sub(Sub(Mul(l, l), x1), x2), p)
    requires CongG(u, Sub(x1, x3), p) && CongG(w, Mul(u, l), p) && CongG(y3, Sub(w, y1), p)
    ensures ThirdPoint(x1, y1, x2, l, x3, y3, p)
  {
    hide Rem, Mul;
    CongGMul(u, Sub(x1, x3), l, l, p);
    MulComm(l, Sub(x1, x3));
    CongGAdd(w, Mul(l, Sub(x1, x3)), y1, y1, p);
  }

  lemma TangentFromCode(x: Gauss, y: Gauss, n0: Gauss, n1: Gauss, n: Gauss, d: Gauss, l: Gauss, p: Pos)
    requires CongG(n0, Add(x, x), p) && CongG(n1, Add(n0, x), p) && n == Red(Mul(n1, x), p) && CongG(d, Add(y, y), p)
    requires CongG(Mul(l, d), n, p)
    ensures CongG(Mul(l, Add(y, y)), Mul(Scale(3, x), x), p)
  {
    CongGRed(Mul(n1, x), p);
    hide Rem, Mul;
    CongGAdd(n0, Add(x, x), x, x, p);
    assert Add(Add(x, x), x) == Scale(3, x);
    CongGMul(n1, Scale(3, x), x, x, p);
    CongGMul(l, l, d, Add(y, y), p);
  }

  lemma ChordFromCode(x1: Gauss, y1: Gauss, x2: Gauss, y2: Gauss, n: Gauss, d: Gauss, l: Gauss, p: Pos)
    requires CongG(n, Sub(y2, y1), p) && CongG(d, Sub(x2, x1), p) && CongG(Mul(l, d), n, p)
    ensures CongG(Mul(l, Sub(x2, x1)), Sub(y2, y1), p)
  {
    hide Rem, Mul;
    CongGMul(l, l, d, Sub(x2, x1), p);
  }

  // R = P + Q, where R may be P, Q or both.  Opposite points are recognised by
  // comparing with the uncorrected negation of fp2_neg.
  method PointAdd(R: Point, P: Point, Q: Point, p: Pos)
    requires Separate(R, P) && Separate(R, Q)
    modifies R, R.x, R.y
    ensures old(P.infinity) ==>
              R.infinity == old(Q.infinity) && R.x.Val() == old(Q.x.Val()) && R.y.Val() == old(Q.y.Val())
    ensures !old(P.infinity) && old(Q.infinity) ==>
              !R.infinity && R.x.Val() == old(P.x.Val()) && R.y.Val() == old(P.y.Val())
    ensures !old(P.infinity) && !old(Q.infinity) ==>
              FiniteSum(old(P.x.Val()), old(P.y.Val()), old(Q.x.Val()), old(Q.y.Val()),
                        R.infinity, R.x.Val(), R.y.Val(), p)
    ensures !old(P.infinity) && !old(Q.infinity) ==>
              (R.infinity <==> old(P.x.Val() == Q.x.Val() && P.y.Val() == G(p - Q.y.a, p - Q.y.b)))
    ensures !old(P.infinity) && R.infinity ==> R.x.Val() == ZERO && R.y.Val() == ONE
  {
    hide Tangent, Chord, ThirdPoint, CongG, Canonical, Add, Sub, Prime;
    if P.infinity {
      R.x.Set(Q.x);
      R.y.Set(Q.y);
      R.infinity := Q.infinity;
      return;
    }
    if Q.infinity {
      R.x.Set(P.x);
      R.y.Set(P.y);
      R.infinity := P.infinity;
      return;
    }
    R.infinity := false;
    if P.x.Equal(Q.x) {
      var temp := new Elem();
      temp.SetNeg(Q.y, p);
      if P.y.Equal(temp) {
        R.x.SetZero();
        R.y.SetOne();
        R.infinity := true;
      } else {
        TangentAdd(R, P, p);
      }
    } else {
      ChordAdd(R, P, Q, p);
    }
  }

  // What point_add makes of two finite points.  A division by zero gives slope 0.
  ghost predicate FiniteSum(x1: Gauss, y1: Gauss, x2: Gauss, y2: Gauss, infinity: bool, x3: Gauss, y3: Gauss, p: Pos) {
    && (infinity <==> x1 == x2 && y1 == G(p - y2.a, p - y2.b))
    && (infinity ==> x3 == ZERO && y3 == ONE)
    && (!infinity ==>
          && (x1 == x2 && CongG(Add(y1, y1), ZERO, p) ==> ThirdPoint(x1, y1, x1, ZERO, x3, y3, p))
          && (x1 != x2 && CongG(Sub(x2, x1), ZERO, p) ==> ThirdPoint(x1, y1, x2, ZERO, x3, y3, p)))
    && (Prime(p) && p % 4 == 3 && !infinity ==>
          && (x1 == x2 && !CongG(Add(y1, y1), ZERO, p) ==> Tangent(x1, y1, x3, y3, p))
          && (x1 != x2 && !CongG(Sub(x2, x1), ZERO, p) ==> Chord(x1, y1, x2, y2, x3, y3, p)))
    && (!infinity && Canonical(x1, p) && Canonical(y1, p) && Canonical(x2, p) ==> Canonical(x3, p) && Canonical(y3, p))
  }

  // ----- the points of E/F_p -----

  lemma RealEmbedding(a: int, b: int)
    ensures Mul(G(a, 0), G(b, 0)) == G(a * b, 0) && Sub(G(a, 0), G(b, 0)) == G(a - b, 0)
    ensures Add(G(a, 0), G(b, 0)) == G(a + b, 0) && Scale(b, G(a, 0)) == G(b * a, 0)
  {
  }

  lemma RealCong(a: int, b: int, p: Pos)
    ensures CongG(G(a, 0), G(b, 0), p) <==> Cong(a, b, p)
  {
  }

  // The third point on a line of real slope through real points is real.
  lemma RealThird(S: Pt, x2: int, k: int, l: Gauss, x3: Gauss, y3: Gauss, p: Pos)
    requires S.A? && CongG(l, G(k, 0), p) && ThirdPoint(G(S.x, 0), G(S.y, 0), G(x2, 0), l, x3, y3, p)
    ensures CongG(x3, G(Third(S, x2, k, p).x, 0), p) && CongG(y3, G(Third(S, x2, k, p).y, 0), p)
  {
    var u := k * k - S.x - x2;
    var r := Rem(u, p);
    var v := k * (S.x - r) - S.y;
    CongMod(u, p); CongMod(v, p);
    RealCong(r, u, p); RealCong(Rem(v, p), v, p);
    RealEmbedding(k, k); RealEmbedding(k, S.x - r); RealEmbedding(S.x, r);
    hide Rem, Mul;
    CongGMul(l, G(k, 0), l, G(k, 0), p);
    CongGAdd(Mul(l, l), G(k * k, 0), G(S.x, 0), G(S.x, 0), p);
    CongGAdd(Sub(Mul(l, l), G(S.x, 0)), G(k * k - S.x, 0), G(x2, 0), G(x2, 0), p);
    CongGAdd(G(S.x, 0), G(S.x, 0), x3, G(r, 0), p);
    CongGMul(l, G(k, 0), Sub(G(S.x, 0), x3), G(S.x - r, 0), p);
    CongGAdd(Mul(l, Sub(G(S.x, 0), x3)), G(k * (S.x - r), 0), G(S.y, 0), G(S.y, 0), p);
  }

  lemma RealSlope(l: Gauss, k: int, d: int, n: int, d': Gauss, n': Gauss, p: Pos)
    requires Prime(p) && p % 4 == 3 && !Cong(d, 0, p) && Cong(k * d, n, p)
    requires CongG(Mul(l, d'), n', p) && CongG(d', G(d, 0), p) && CongG(n', G(n, 0), p)
    ensures CongG(l, G(k, 0), p)
  {
    RealCong(d, 0, p);
    RealCong(k * d, n, p);
    RealEmbedding(k, d);
    hide Rem, Mul;
    CongGMul(l, l, d', G(d, 0), p);
    QuotientUnique(l, G(k, 0), G(d, 0), p);
  }

  lemma RealChord(S: Pt, T: Pt, y2: Gauss, x3: Gauss, y3: Gauss, p: Pos)
    requires Field(p) && p % 4 == 3 && OnCurve(S, p) && OnCurve(T, p) && S.A? && T.A? && S.x != T.x
    requires CongG(y2, G(T.y, 0), p) && Chord(G(S.x, 0), G(S.y, 0), G(T.x, 0), y2, x3, y3, p)
    ensures CongG(x3, G(Plus(S, T, p).x, 0), p) && CongG(y3, G(Plus(S, T, p).y, 0), p)
  {
    assert Plus(S, T, p) == Third(S, T.x, ChordSlope(S, T, p), p);
    hide Rem, Red, Mul, Sub, ChordSlope, OnCurve, Third, ThirdPoint, Chord, Plus;
    RealDifferences(S, T, y2, p);
    ChordSlopeCorrect(S, T, p);
    RealChordThird(S, T, ChordSlope(S, T, p), y2, x3, y3, p);
  }

  lemma RealChordThird(S: Pt, T: Pt, k: int, y2: Gauss, x3: Gauss, y3: Gauss, p: Pos)
    requires Prime(p) && p % 4 == 3 && S.A? && T.A? && !Cong(T.x - S.x, 0, p) && Cong(k * (T.x - S.x), T.y - S.y, p)
    requires CongG(Sub(G(T.x, 0), G(S.x, 0)), G(T.x - S.x, 0), p) && CongG(Sub(y2, G(S.y, 0)), G(T.y - S.y, 0), p)
    requires Chord(G(S.x, 0), G(S.y, 0), G(T.x, 0), y2, x3, y3, p)
    ensures CongG(x3, G(Third(S, T.x, k, p).x, 0), p) && CongG(y3, G(Third(S, T.x, k, p).y, 0), p)
  {
    hide Rem, Red, Mul, Sub, Third, ThirdPoint;
    var l :| CongG(Mul(l, Sub(G(T.x, 0), G(S.x, 0))), Sub(y2, G(S.y, 0)), p)
          && ThirdPoint(G(S.x, 0), G(S.y, 0), G(T.x, 0), l, x3, y3, p);
    RealSlope(l, k, T.x - S.x, T.y - S.y, Sub(G(T.x, 0), G(S.x, 0)), Sub(y2, G(S.y, 0)), p);
    RealThird(S, T.x, k, l, x3, y3, p);
  }

  lemma RealDifferences(S: Pt, T: Pt, y2: Gauss, p: Pos)
    requires S.A? && T.A? && CongG(y2, G(T.y, 0), p)
    ensures CongG(Sub(G(T.x, 0), G(S.x, 0)), G(T.x - S.x, 0), p)
    ensures CongG(Sub(y2, G(S.y, 0)), G(T.y - S.y, 0), p)
  {
    hide Rem;
    CongGAdd(y2, G(T.y, 0), G(S.y, 0), G(S.y, 0), p);
  }

  lemma RealTangent(S: Pt, x3: Gauss, y3: Gauss, p: Pos)
    requires Field(p) && p % 4 == 3 && OnCurve(S, p) && S.A? && !Cong(S.y, 0, p)
    requires Tangent(G(S.x, 0), G(S.y, 0), x3, y3, p)
    ensures var T := Third(S, S.x, TangentSlope(S, p), p);
            CongG(x3, G(T.x, 0), p) && CongG(y3, G(T.y, 0), p)
  {
    hide Rem, Mul, TangentSlope, OnCurve, Scale, Third, ThirdPoint;
    var x, y := G(S.x, 0), G(S.y, 0);
    var l :| CongG(Mul(l, Add(y, y)), Mul(Scale(3, x), x), p) && ThirdPoint(x, y, x, l, x3, y3, p);
    TangentSlopeCorrect(S, p);
    TwoUnit(S.y, p);
    TangentEmbedding(S.x, S.y);
    var k := TangentSlope(S, p);
    RealSlope(l, k, 2 * S.y, 3 * S.x * S.x, Add(y, y), Mul(Scale(3, x), x), p);
    RealThird(S, S.x, k, l, x3, y3, p);
  }

  lemma TangentEmbedding(x: int, y: int)
    ensures Add(G(y, 0), G(y, 0)) == G(2 * y, 0) && Mul(Scale(3, G(x, 0)), G(x, 0)) == G(3 * x * x, 0)
  {
    RealEmbedding(x, 3);
    RealEmbedding(3 * x, x);
  }

  lemma CanonicalReal(x: Gauss, a: int, p: Pos)
    requires Canonical(x, p) && 0 <= a < p && CongG(x, G(a, 0), p)
    ensures x == G(a, 0)
  {
    CongSmall(x.a, a, p);
    CongSmall(x.b, 0, p);
  }

  lemma PlusShape(S: Pt, T: Pt, p: Pos)
    requires Field(p) && S.A? && T.A? && OnCurve(S, p) && OnCurve(T, p) && Plus(S, T, p) != O
    ensures Plus(S, T, p).A? && OnCurve(Plus(S, T, p), p)
    ensures S.x == T.x ==> S == T && !Cong(S.y, 0, p) && Plus(S, T, p) == Third(S, S.x, TangentSlope(S, p), p)
  {
    AddOnCurve(S, T, p);
    if S.x == T.x { SameAbscissa(S, T, p); }
  }

  lemma DistinctReal(a: int, b: int, p: Pos)
    requires 0 <= a < p && 0 <= b < p && a != b
    ensures !CongG(Sub(G(b, 0), G(a, 0)), ZERO, p)
  {
    DistinctNotCong(a, b, p);
    RealCong(b - a, 0, p);
  }

  // (x, y) is the point T of E/F_p.
  ghost predicate Gives(x: Gauss, y: Gauss, T: Pt) { T.A? && x == G(T.x, 0) && y == G(T.y, 0) }

  // The uncorrected negation of a real ordinate is never real.
  lemma NeverO(S: Pt, y: int, infinity: bool, x3: Gauss, y3: Gauss, p: Pos)
    requires S.A? && FiniteSum(G(S.x, 0), G(S.y, 0), G(S.x, 0), G(y, 0), infinity, x3, y3, p)
    ensures !infinity
  {
    hide Tangent, Chord, Canonical, CongG;
  }

  // On equal abscissas point_add takes the tangent at the first point, whether
  // the second is the same or its opposite.
  lemma RealDouble(S: Pt, y: int, infinity: bool, x3: Gauss, y3: Gauss, p: Pos)
    requires Field(p) && p % 4 == 3 && S.A? && OnCurve(S, p) && 0 <= y < p
    requires FiniteSum(G(S.x, 0), G(S.y, 0), G(S.x, 0), G(y, 0), infinity, x3, y3, p)
    ensures !infinity
    ensures S.y != 0 ==> Gives(x3, y3, Plus(S, S, p))
  {
    hide Tangent, Chord, Plus, Third, TangentSlope, OnCurve, CongG, Add, Sub;
    NeverO(S, y, infinity, x3, y3, p);
    if S.y != 0 {
      DoubleShape(S, p);
      RealTangent(S, x3, y3, p);
      CanonicalReal(x3, Plus(S, S, p).x, p);
      CanonicalReal(y3, Plus(S, S, p).y, p);
    }
  }

  lemma DoubleShape(S: Pt, p: Pos)
    requires Field(p) && S.A? && OnCurve(S, p) && S.y != 0
    ensures !Cong(S.y, 0, p) && !CongG(Add(G(S.y, 0), G(S.y, 0)), ZERO, p) && 0 <= S.x < p && 0 <= S.y < p
    ensures Plus(S, S, p) == Third(S, S.x, TangentSlope(S, p), p)
    ensures Plus(S, S, p).A? && 0 <= Plus(S, S, p).x < p && 0 <= Plus(S, S, p).y < p
  {
    CanonicalNonZero(S.y, p);
    TwoUnit(S.y, p);
    RealEmbedding(S.y, S.y);
    RealCong(2 * S.y, 0, p);
    ModIntro(0, 0, 0, p);
  }

  lemma RealDistinct(S: Pt, T: Pt, infinity: bool, x3: Gauss, y3: Gauss, p: Pos)
    requires Field(p) && p % 4 == 3 && S.A? && T.A? && OnCurve(S, p) && OnCurve(T, p) && S.x != T.x
    requires FiniteSum(G(S.x, 0), G(S.y, 0), G(T.x, 0), G(T.y, 0), infinity, x3, y3, p)
    ensures !infinity && Gives(x3, y3, Plus(S, T, p))
  {
    hide Tangent, Chord, Plus, OnCurve, CongG, Add, Sub;
    ChordShape(S, T, p);
    RealChord(S, T, G(T.y, 0), x3, y3, p);
    CanonicalReal(x3, Plus(S, T, p).x, p);
    CanonicalReal(y3, Plus(S, T, p).y, p);
  }

  lemma ChordShape(S: Pt, T: Pt, p: Pos)
    requires Field(p) && S.A? && T.A? && OnCurve(S, p) && OnCurve(T, p) && S.x != T.x
    ensures !CongG(Sub(G(T.x, 0), G(S.x, 0)), ZERO, p) && CongG(G(T.y, 0), G(T.y, 0), p)
    ensures 0 <= S.x < p && 0 <= S.y < p && 0 <= T.x < p
    ensures Plus(S, T, p).A? && 0 <= Plus(S, T, p).x < p && 0 <= Plus(S, T, p).y < p
  {
    DistinctReal(S.x, T.x, p);
  }

  // On finite points of E/F_p point_add never answers O, and gives the sum
  // exactly when the sum is not O.
  lemma RealSum(S: Pt, T: Pt, infinity: bool, x3: Gauss, y3: Gauss, p: Pos)
    requires Field(p) && p % 4 == 3 && S.A? && T.A? && OnCurve(S, p) && OnCurve(T, p)
    requires FiniteSum(G(S.x, 0), G(S.y, 0), G(T.x, 0), G(T.y, 0), infinity, x3, y3, p)
    ensures !infinity
    ensures Plus(S, T, p) != O ==> x3 == G(Plus(S, T, p).x, 0) && y3 == G(Plus(S, T, p).y, 0)
  {
    hide FiniteSum, Plus, OnCurve;
    OnCurveBounds(T, p);
    if S.x != T.x {
      RealDistinct(S, T, infinity, x3, y3, p);
    } else {
      RealDouble(S, T.y, infinity, x3, y3, p);
      if Plus(S, T, p) != O {
        PlusShape(S, T, p);
        NonZeroOrdinate(S, p);
      }
    }
  }

  lemma OnCurveBounds(T: Pt, p: Pos)
    requires T.A? && OnCurve(T, p)
    ensures 0 <= T.x < p && 0 <= T.y < p
  {
  }

  lemma NonZeroOrdinate(S: Pt, p: Pos)
    requires S.A? && !Cong(S.y, 0, p)
    ensures S.y != 0
  {
  }

  // P + (-P) is O, but point_add answers 2 P for every P with non-zero ordinate.
  lemma OppositeSum(S: Pt, infinity: bool, x3: Gauss, y3: Gauss, p: Pos)
    requires Field(p) && p % 4 == 3 && S.A? && OnCurve(S, p)
    requires FiniteSum(G(S.x, 0), G(S.y, 0), G(Neg(S, p).x, 0), G(Neg(S, p).y, 0), infinity, x3, y3, p)
    ensures Plus(S, Neg(S, p), p) == O && !infinity
    ensures S.y != 0 ==> Gives(x3, y3, Plus(S, S, p))
  {
    hide FiniteSum, Plus, OnCurve;
    NegOnCurve(S, p);
    RealDouble(S, Neg(S, p).y, infinity, x3, y3, p);
  }
}
