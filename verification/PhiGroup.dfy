// point_Phi respects the group law: multiplying abscissas by a cube root of unity
// takes sums to sums, so that a point of E/F_p and its image have one order.
module PhiGroup {
  import opened NumberTheory
  import opened Powers
  import opened EllipticCurve
  import opened PointGroup
  import opened Fp2
  import opened PointAddition
  import opened Closure
  import opened ExtensionGroup
  import opened GeneralCourse
  import opened HashToPoint

  ghost predicate Unity(z: Gauss, p: Pos) { CongG(Mul(Mul(z, z), z), ONE, p) }

  function PhiOf(T: Pt2, z: Gauss, p: Pos): Pt2 {
    if T.O2? then O2 else A2(Red(Mul(T.x, z), p), T.y)
  }

  lemma PhiStays(T: Pt2, z: Gauss, p: Pos)
    requires Unity(z, p) && On2(T, p)
    ensures On2(PhiOf(T, z, p), p)
  {
    hide Mul, Rem, OnCurve2;
    if T.A2? {
      PhiOnCurve(T.x, T.y, z, p);
      CanonicalRed(Mul(T.x, z), p);
    }
  }

  // ----- slopes -----

  // z^2 u times z v is u v.
  lemma UnityCancels(z: Gauss, u: Gauss, v: Gauss, v': Gauss, p: Pos)
    requires Unity(z, p) && CongG(v', Mul(v, z), p)
    ensures CongG(Mul(Mul(Mul(z, z), u), v'), Mul(u, v), p)
  {
    hide Mul, Red;
    var w := Mul(z, z);
    MulComm(v, z);
    CongGMul(Mul(w, u), Mul(w, u), v', Mul(z, v), p);
    MulSwap(w, u, z, v);
    CongGMul(Mul(w, z), ONE, Mul(u, v), Mul(u, v), p);
    MulOne(Mul(u, v));
  }

  lemma PhiDifference(x1: Gauss, x2: Gauss, x1': Gauss, x2': Gauss, z: Gauss, p: Pos)
    requires CongG(x1', Mul(x1, z), p) && CongG(x2', Mul(x2, z), p)
    ensures CongG(Sub(x2', x1'), Mul(Sub(x2, x1), z), p)
  {
    MulComm(Sub(x2, x1), z); MulComm(x1, z); MulComm(x2, z);
    MulSub(z, x2, x1);
    hide Mul, Red, Sub;
    CongGAdd(x2', Mul(x2, z), x1', Mul(x1, z), p);
  }

  // z^2 l squared is z l^2.
  lemma UnitySquare(z: Gauss, l: Gauss, p: Pos)
    requires Unity(z, p)
    ensures var k := Mul(Mul(z, z), l); CongG(Mul(k, k), Mul(Mul(l, l), z), p)
  {
    hide Mul, Red;
    var w := Mul(z, z);
    MulSwap(w, l, w, l);
    MulAssoc(w, z, z);
    CongGMul(Mul(w, z), ONE, z, z, p);
    MulOne(z);
    CongGMul(Mul(w, w), z, Mul(l, l), Mul(l, l), p);
    MulComm(z, Mul(l, l));
  }

  lemma PhiThird(x1: Gauss, y1: Gauss, x2: Gauss, l: Gauss, x3: Gauss, y3: Gauss,
                 x1': Gauss, x2': Gauss, x3': Gauss, z: Gauss, p: Pos)
    requires Unity(z, p) && ThirdPoint(x1, y1, x2, l, x3, y3, p)
    requires CongG(x1', Mul(x1, z), p) && CongG(x2', Mul(x2, z), p) && CongG(x3', Mul(x3, z), p)
    ensures ThirdPoint(x1', y1, x2', Mul(Mul(z, z), l), x3', y3, p)
  {
    hide Mul, Red, Sub;
    var k, s := Mul(Mul(z, z), l), Sub(Sub(Mul(l, l), x1), x2);
    UnitySquare(z, l, p);
    PhiDifference(x1, Mul(l, l), x1', Mul(k, k), z, p);
    PhiDifference(x2, Sub(Mul(l, l), x1), x2', Sub(Mul(k, k), x1'), z, p);
    CongGMul(x3, s, z, z, p);
    PhiDifference(x3, x1, x3', x1', z, p);
    UnityCancels(z, l, Sub(x1, x3), Sub(x1', x3'), p);
    CongGAdd(Mul(k, Sub(x1', x3')), Mul(l, Sub(x1, x3)), y1, y1, p);
  }

  lemma PhiSquare(x: Gauss, x': Gauss, z: Gauss, p: Pos)
    requires CongG(x', Mul(x, z), p)
    ensures CongG(Mul(Scale(3, x'), x'), Mul(Mul(z, z), Mul(Scale(3, x), x)), p)
  {
    hide Mul, Red, Scale;
    CongGMul(x', Mul(x, z), x', Mul(x, z), p);
    MulSwap(x, z, x, z);
    ScaleFirst(x'); ScaleFirst(x);
    CongGScale(Mul(x', x'), Mul(Mul(x, x), Mul(z, z)), p);
    MulComm(Mul(x, x), Mul(z, z));
    MulScale(Mul(z, z), 3, Mul(x, x));
  }

  lemma ScaleFirst(x: Gauss)
    ensures Mul(Scale(3, x), x) == Scale(3, Mul(x, x))
  {
    MulComm(Scale(3, x), x);
    MulScale(x, 3, x);
  }

  lemma CongGScale(x: Gauss, y: Gauss, p: Pos)
    requires CongG(x, y, p)
    ensures CongG(Scale(3, x), Scale(3, y), p)
  {
    hide Rem;
    CongMul(3, 3, x.a, y.a, p);
    CongMul(3, 3, x.b, y.b, p);
  }

  // ----- sums -----

  lemma PhiCong(T: Pt2, z: Gauss, p: Pos)
    requires T.A2?
    ensures var R := PhiOf(T, z, p); R.A2? && R.y == T.y && CongG(R.x, Mul(T.x, z), p) && Canonical(R.x, p)
  {
    CanonicalRed(Mul(T.x, z), p);
  }

  lemma UnityUnit(z: Gauss, p: Pos)
    requires Field2(p) && Unity(z, p)
    ensures !CongG(z, ZERO, p)
  {
    hide Mul;
    if CongG(z, ZERO, p) {
      CongGMul(Mul(z, z), Mul(z, z), z, ZERO, p);
      MulZero(Mul(z, z));
      OneIsZero(p);
    }
  }

  lemma OneIsZero(p: Pos)
    requires p > 1
    ensures !CongG(ONE, ZERO, p)
  {
    ModIntro(1, 0, 1, p); ModIntro(0, 0, 0, p);
  }

  // Different abscissas stay different.
  lemma PhiAbscissas(S: Pt2, T: Pt2, z: Gauss, p: Pos)
    requires Field2(p) && Unity(z, p) && Canonical2(S, p) && Canonical2(T, p) && S.A2? && T.A2?
    ensures PhiOf(S, z, p).x == PhiOf(T, z, p).x <==> S.x == T.x
  {
    hide Mul, Unity;
    if PhiOf(S, z, p).x == PhiOf(T, z, p).x {
      UnityUnit(z, p);
      QuotientUnique(S.x, T.x, z, p);
      CongSmall(S.x.a, T.x.a, p); CongSmall(S.x.b, T.x.b, p);
    }
  }

  lemma PhiChord(S: Pt2, T: Pt2, z: Gauss, p: Pos)
    requires Field2(p) && Unity(z, p) && Canonical2(S, p) && Canonical2(T, p) && S.A2? && T.A2? && S.x != T.x
    ensures Chord2(PhiOf(S, z, p), PhiOf(T, z, p), p) == PhiOf(Chord2(S, T, p), z, p)
  {
    hide Mul, Red, Sub, Unity, ThirdPoint, Chord2, PhiOf, Canonical;
    var R := Chord2(S, T, p);
    var S', T', R' := PhiOf(S, z, p), PhiOf(T, z, p), PhiOf(R, z, p);
    Divisors(S, T, p);
    ChordExists(S, T, p);
    PhiCong(S, z, p); PhiCong(T, z, p); PhiCong(R, z, p);
    var l :| CongG(Mul(l, Sub(T.x, S.x)), Sub(T.y, S.y), p) && ThirdPoint(S.x, S.y, T.x, l, R.x, R.y, p);
    PhiThird(S.x, S.y, T.x, l, R.x, R.y, S'.x, T'.x, R'.x, z, p);
    PhiDifference(S.x, T.x, S'.x, T'.x, z, p);
    UnityCancels(z, l, Sub(T.x, S.x), Sub(T'.x, S'.x), p);
    PhiAbscissas(S, T, z, p);
    Divisors(S', T', p);
    ChordUnique(S', T', R'.x, R'.y, p);
  }

  lemma PhiTangent(S: Pt2, z: Gauss, p: Pos)
    requires Field2(p) && Unity(z, p) && Canonical2(S, p) && S.A2? && S.y != ZERO
    ensures Tangent2(PhiOf(S, z, p), p) == PhiOf(Tangent2(S, p), z, p)
  {
    hide Mul, Red, Sub, Add, Scale, Unity, ThirdPoint, Tangent2, PhiOf, Canonical;
    var R := Tangent2(S, p);
    var S', R' := PhiOf(S, z, p), PhiOf(R, z, p);
    Divisors(S, S, p);
    TangentExists(S, p);
    PhiCong(S, z, p); PhiCong(R, z, p);
    var d, n, n' := Add(S.y, S.y), Mul(Scale(3, S.x), S.x), Mul(Scale(3, S'.x), S'.x);
    var l :| CongG(Mul(l, d), n, p) && ThirdPoint(S.x, S.y, S.x, l, R.x, R.y, p);
    PhiThird(S.x, S.y, S.x, l, R.x, R.y, S'.x, S'.x, R'.x, z, p);
    PhiSquare(S.x, S'.x, z, p);
    MulAssoc(Mul(z, z), l, d);
    CongGMul(Mul(z, z), Mul(z, z), Mul(l, d), n, p);
    TangentUnique(S', R'.x, R'.y, p);
  }

  // Phi takes sums to sums.
  lemma PhiSum(S: Pt2, T: Pt2, z: Gauss, p: Pos)
    requires Field2(p) && Unity(z, p) && On2(S, p) && On2(T, p)
    ensures Plus2(PhiOf(S, z, p), PhiOf(T, z, p), p) == PhiOf(Plus2(S, T, p), z, p)
  {
    hide Mul, Red, Unity, Chord2, Tangent2, PhiOf, OnCurve2, Canonical, Add;
    PhiOfO(S, z, p); PhiOfO(T, z, p);
    if S.A2? && T.A2? {
      PhiCong(S, z, p); PhiCong(T, z, p);
      PhiAbscissas(S, T, z, p);
      if S.x != T.x {
        PhiChord(S, T, z, p);
      } else if Red(Add(S.y, T.y), p) != ZERO {
        if S.y == ZERO { ZeroOrdinates(S, T, p); TwoZeros(p); }
        PhiTangent(S, z, p);
      }
    }
  }

  lemma PhiOfO(T: Pt2, z: Gauss, p: Pos)
    ensures PhiOf(O2, z, p) == O2 && (PhiOf(T, z, p) == O2 <==> T == O2)
  {
  }

  lemma TwoZeros(p: Pos)
    ensures Red(Add(ZERO, ZERO), p) == ZERO
  {
    ModIntro(0, 0, 0, p);
  }

  lemma {:induction false} PhiTimes(n: nat, P: Pt2, z: Gauss, p: Pos)
    requires Field2(p) && Unity(z, p) && On2(P, p)
    ensures Times2(n, PhiOf(P, z, p), p) == PhiOf(Times2(n, P, p), z, p)
  {
    hide Unity, Plus2, PhiOf, On2, Times2;
    Times2Zero(P, p);
    Times2Zero(PhiOf(P, z, p), p);
    PhiOfO(P, z, p);
    if n > 0 {
      PhiTimes(n - 1, P, z, p);
      Times2OnCurve(n - 1, P, p);
      Times2Step(n - 1, P, p);
      Times2Step(n - 1, PhiOf(P, z, p), p);
      PhiSum(Times2(n - 1, P, p), P, z, p);
    }
  }

  // Phi keeps the order.
  lemma PhiOrder(P: Pt2, r: Pos, z: Gauss, p: Pos)
    requires Field2(p) && Unity(z, p) && Order2(P, r, p)
    ensures Order2(PhiOf(P, z, p), r, p)
  {
    hide Unity, Plus2, PhiOf, On2, Times2, Order2, Additive, Cong;
    var Q := PhiOf(P, z, p);
    OrderOf2(0, P, r, p);
    PhiStays(P, z, p);
    forall i: nat ensures Times2(i, Q, p) == O2 <==> Cong(i, 0, r) {
      OrderOf2(i, P, r, p);
      PhiTimes(i, P, z, p);
      PhiOfO(Times2(i, P, p), z, p);
    }
    forall m: nat, n: nat ensures Times2(m + n, Q, p) == Plus2(Times2(m, Q, p), Times2(n, Q, p), p) {
      PhiTimes(m, P, z, p); PhiTimes(n, P, z, p); PhiTimes(m + n, P, z, p);
      Times2OnCurve(m, P, p); Times2OnCurve(n, P, p);
      Times2Add(m, n, P, p);
      PhiSum(Times2(m, P, p), Times2(n, P, p), z, p);
    }
    assert Additive(Q, p) by { AdditiveIntro(Q, p); }
    assert Order2(Q, r, p) by { OrderIntro(Q, r, p); }
  }

  lemma AdditiveIntro(P: Pt2, p: Pos)
    requires forall m: nat, n: nat :: Times2(m + n, P, p) == Plus2(Times2(m, P, p), Times2(n, P, p), p)
    ensures Additive(P, p)
  {
  }

  lemma OrderIntro(P: Pt2, r: Pos, p: Pos)
    requires On2(P, p) && Additive(P, p) && forall i: nat :: Times2(i, P, p) == O2 <==> Cong(i, 0, r)
    ensures Order2(P, r, p)
  {
  }

  // general_point_mul commutes with Phi on points of order q of E/F_p: it answers
  // Phi of the multiple.
  lemma PhiProduct(a: int, P: Pt, z: Gauss, q: Pos, p: Pos)
    requires GroupLaw(p) && p % 4 == 3 && HasOrder(P, q, p) && Unity(z, p)
    ensures Product(a, PhiOf(Embed(P), z, p), q, p) == Trace(PhiOf(Embed(Times(a, P, p)), z, p), false)
  {
    hide Unity, Times, Times2, HasOrder, Associative, Order2, LongOrder, Product, OnCurve, Embed, PhiOf, Rem;
    var n: nat := Rem(a, q);
    OrderOf(0, P, q, p);
    EmbedOnCurve(P, p);
    RealOrder(P, q, p);
    PhiOrder(Embed(P), q, z, p);
    OrderIsLong(PhiOf(Embed(P), z, p), q, p);
    ProductMultiple(a, PhiOf(Embed(P), z, p), q, q, p);
    PhiTimes(n, Embed(P), z, p);
    EmbedTimes(n, P, p);
    RemCong(a, n, q);
    TimesEqual(a, n, P, q, p);
  }
}
