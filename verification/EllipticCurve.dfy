// The curve y^2 = x^3 + 1 over F_p and its chord-and-tangent law.  Closure,
// commutativity, the identity and inverses are proved; associativity, which
// makes it a group, is the hypothesis Associative.
module EllipticCurve {
  import opened NumberTheory

  datatype Pt = O | A(x: int, y: int)

  ghost predicate Field(p: Pos) { Prime(p) && p > 3 }

  ghost predicate OnCurve(P: Pt, p: Pos)
  {
    P.A? ==> 0 <= P.x < p && 0 <= P.y < p && Cong(P.y * P.y, P.x * P.x * P.x + 1, p)
  }

  // The inverse of a modulo p when a is a unit.
  function Inv(a: int, p: Pos): int
  {
    Rem(ExtGcd(Rem(a, p), p).1, p)
  }

  function Neg(P: Pt, p: Pos): Pt
  {
    if P.O? then O else A(P.x, Rem(-P.y, p))
  }

  // The slopes of the line through two points and of the tangent at one.
  function ChordSlope(P: Pt, Q: Pt, p: Pos): int
    requires P.A? && Q.A?
  {
    Rem((Q.y - P.y) * Inv(Q.x - P.x, p), p)
  }

  function TangentSlope(P: Pt, p: Pos): int
    requires P.A?
  {
    Rem(3 * P.x * P.x * Inv(2 * P.y, p), p)
  }

  // The reflection of the third point on the line of slope l through P and a
  // point with abscissa x2.
  function Third(P: Pt, x2: int, l: int, p: Pos): Pt
    requires P.A?
  {
    var x3 := Rem(l * l - P.x - x2, p);
    A(x3, Rem(l * (P.x - x3) - P.y, p))
  }

  function Plus(P: Pt, Q: Pt, p: Pos): Pt
  {
    if P.O? then Q
    else if Q.O? then P
    else if P.x != Q.x then Third(P, Q.x, ChordSlope(P, Q, p), p)
    else if Rem(P.y + Q.y, p) == 0 then O
    else Third(P, P.x, TangentSlope(P, p), p)
  }

  ghost predicate Associative(p: Pos)
  {
    forall P, Q, R :: OnCurve(P, p) && OnCurve(Q, p) && OnCurve(R, p) ==>
      Plus(Plus(P, Q, p), R, p) == Plus(P, Plus(Q, R, p), p)
  }

  // ----- slopes -----

  lemma InvCorrect(a: int, p: Pos)
    requires Prime(p) && !Cong(a, 0, p)
    ensures IsInverse(a, Inv(a, p), p) && Cong(a * Inv(a, p), 1, p)
  {
    PrimeInvertible(a, p);
    CommonDivisor(a, p);
    var (g, u, v) := ExtGcd(a % p, p);
    InverseFromBezout(a, u, v, p);
    ModIntro(1, 0, 1, p);
  }

  // Rem(n * Inv(d)) is the quotient n / d.
  lemma QuotientMod(n: int, d: int, p: Pos)
    requires Prime(p) && !Cong(d, 0, p)
    ensures Cong(Rem(n * Inv(d, p), p) * d, n, p)
  {
    hide Rem, Cong, Inv, IsInverse, Prime;
    var i := Inv(d, p);
    InvCorrect(d, p);
    RemCong(n * i, Rem(n * i, p), p);
    CongSelf(d, p); CongSelf(n, p);
    CongMul(Rem(n * i, p), n * i, d, d, p);
    CongMul(n, n, d * i, 1, p);
    Reassociate(n, i, d);
    CongTrans(Rem(n * i, p) * d, n * (d * i), n * 1, p);
  }

  lemma Reassociate(n: int, i: int, d: int)
    ensures n * i * d == n * (d * i)
  {
  }

  lemma DistinctNotCong(a: int, b: int, p: Pos)
    requires 0 <= a < p && 0 <= b < p && a != b
    ensures !Cong(b - a, 0, p) && !Cong(a - b, 0, p)
  {
    if Cong(b - a, 0, p) { CongAdd(b - a, 0, a, a, p); CongSmall(a, b, p); }
    if Cong(a - b, 0, p) { CongAdd(a - b, 0, b, b, p); CongSmall(a, b, p); }
  }

  lemma ChordSlopeCorrect(P: Pt, Q: Pt, p: Pos)
    requires Field(p) && P.A? && Q.A? && P.x != Q.x && OnCurve(P, p) && OnCurve(Q, p)
    ensures !Cong(Q.x - P.x, 0, p)
    ensures Cong(ChordSlope(P, Q, p) * (Q.x - P.x), Q.y - P.y, p)
  {
    DistinctNotCong(P.x, Q.x, p);
    QuotientMod(Q.y - P.y, Q.x - P.x, p);
  }

  lemma TwoUnit(y: int, p: Pos)
    requires Field(p) && !Cong(y, 0, p)
    ensures !Cong(2 * y, 0, p)
  {
    if Cong(2 * y, 0, p) {
      EuclidLemma(2, y, p);
      ModIntro(2, 0, 2, p); ModIntro(0, 0, 0, p);
    }
  }

  lemma TangentSlopeCorrect(P: Pt, p: Pos)
    requires Field(p) && P.A? && !Cong(P.y, 0, p)
    ensures Cong(TangentSlope(P, p) * (2 * P.y), 3 * P.x * P.x, p)
  {
    TwoUnit(P.y, p);
    QuotientMod(3 * P.x * P.x, 2 * P.y, p);
  }

  // ----- closure -----

  // How far the line of slope l through (x1, y1) is from meeting the curve
  // again at abscissa x2, divided by x2 - x1.
  function Defect(x1: int, y1: int, x2: int, l: int): int {
    l * (2 * y1 + l * (x2 - x1)) - (x2 * x2 + x1 * x2 + x1 * x1)
  }

  lemma DefectExpand(x1: int, y1: int, x2: int, l: int)
    ensures Defect(x1, y1, x2, l) == 2 * (y1 * l) + (l * l) * (x2 - x1) - (x2 * x2 + x1 * x2 + x1 * x1)
  {
    assert l * (2 * y1 + l * (x2 - x1)) == l * (2 * y1) + l * (l * (x2 - x1));
  }

  lemma SquareOfDifference(l: int, u: int, y: int)
    ensures (l * u - y) * (l * u - y) == u * ((l * l) * u - 2 * (y * l)) + y * y
  {
    var e := l * u;
    assert (e - y) * (e - y) == e * e - 2 * (e * y) + y * y;
    assert e * e == u * ((l * l) * u) && e * y == u * (y * l);
    assert u * ((l * l) * u - 2 * (y * l)) == u * ((l * l) * u) - 2 * (u * (y * l));
  }

  lemma CubeDifference(a: int, b: int)
    ensures (a - b) * (a * a + a * b + b * b) == a * a * a - b * b * b
  {
  }

  lemma SumTimesDifference(x1: int, x2: int, x3: int)
    ensures (x3 + x1 + x2) * (x2 - x3) == (x2 * x2 + x1 * x2 + x1 * x1) - (x1 * x1 + x1 * x3 + x3 * x3)
  {
  }

  lemma ThirdIdentity(x1: int, y1: int, x2: int, l: int, x3: int, y3: int)
    requires x3 == l * l - x1 - x2 && y3 == l * (x1 - x3) - y1
    ensures y3 * y3 - x3 * x3 * x3 - 1 == (x3 - x1) * Defect(x1, y1, x2, l) + (y1 * y1 - x1 * x1 * x1 - 1)
  {
    hide Defect;
    var u, m, t := x1 - x3, l * l, y1 * l;
    var w := x1 * x1 + x1 * x3 + x3 * x3;
    SquareOfDifference(l, u, y1);
    CubeDifference(x1, x3);
    DefectExpand(x1, y1, x2, l);
    SumTimesDifference(x1, x2, x3);
    Bracket(u, m, t, w, x2 - x1, Defect(x1, y1, x2, l));
  }

  lemma Bracket(u: int, m: int, t: int, w: int, d: int, defect: int)
    requires m * (d + u) == 2 * t + m * d - defect - w
    ensures u * (m * u - 2 * t) + u * w == -u * defect
  {
    assert m * (d + u) == m * d + m * u;
    assert u * (m * u - 2 * t) + u * w == u * (m * u - 2 * t + w);
  }

  lemma ThirdOnCurve(P: Pt, x2: int, l: int, p: Pos)
    requires Field(p) && P.A? && OnCurve(P, p) && Cong(Defect(P.x, P.y, x2, l), 0, p)
    ensures OnCurve(Third(P, x2, l, p), p)
  {
    var x3 := l * l - P.x - x2;
    var y3 := l * (P.x - x3) - P.y;
    var R := Third(P, x2, l, p);
    CongMod(x3, p);
    CongMod(l * (P.x - R.x) - P.y, p);
    hide Rem, Defect;
    ThirdIdentity(P.x, P.y, x2, l, x3, y3);
    CongDiff(P.y * P.y, P.x * P.x * P.x + 1, p);
    CurveResidue(P.x, P.y, p);
    Combine(y3 * y3 - x3 * x3 * x3 - 1, x3 - P.x, Defect(P.x, P.y, x2, l), 1, P.y * P.y - P.x * P.x * P.x - 1, p);
    CurveResidue(x3, y3, p);
    CongAdd(P.x, P.x, R.x, x3, p);
    CongMul(l, l, P.x - R.x, P.x - x3, p);
    CongAdd(l * (P.x - R.x), l * (P.x - x3), P.y, P.y, p);
    CurveCong(R.x, x3, R.y, y3, p);
  }

  lemma CurveResidue(x: int, y: int, p: Pos)
    ensures Cong(y * y, x * x * x + 1, p) <==> Cong(y * y - x * x * x - 1, 0, p)
  {
    hide Rem;
    if Cong(y * y, x * x * x + 1, p) { CongAdd(y * y, x * x * x + 1, x * x * x + 1, x * x * x + 1, p); }
    if Cong(y * y - x * x * x - 1, 0, p) { CongAdd(y * y - x * x * x - 1, 0, x * x * x + 1, x * x * x + 1, p); }
  }

  lemma CurveCong(x: int, x': int, y: int, y': int, p: Pos)
    requires Cong(x, x', p) && Cong(y, y', p) && Cong(y' * y', x' * x' * x' + 1, p)
    ensures Cong(y * y, x * x * x + 1, p)
  {
    hide Rem;
    CongMul(y, y', y, y', p);
    CongMul(x, x', x, x', p);
    CongMul(x * x, x' * x', x, x', p);
    CongAdd(x * x * x, x' * x' * x', 1, 1, p);
  }

  lemma DefectIdentity(x1: int, y1: int, x2: int, l: int)
    ensures (x2 - x1) * Defect(x1, y1, x2, l)
         == (l * (x2 - x1)) * (2 * y1 + l * (x2 - x1)) - (x2 * x2 * x2 - x1 * x1 * x1)
  {
    var d := x2 - x1;
    CubeDifference(x2, x1);
    Regroup(d, l, 2 * y1 + l * d, x2 * x2 + x1 * x2 + x1 * x1);
  }

  lemma Regroup(d: int, l: int, e: int, w: int)
    ensures d * (l * e - w) == (l * d) * e - d * w
  {
    assert d * (l * e - w) == d * (l * e) - d * w;
  }

  lemma ChordDefect(x1: int, y1: int, x2: int, y2: int, l: int, p: Pos)
    requires Prime(p) && Cong(y1 * y1, x1 * x1 * x1 + 1, p) && Cong(y2 * y2, x2 * x2 * x2 + 1, p)
    requires Cong(l * (x2 - x1), y2 - y1, p) && !Cong(x2 - x1, 0, p)
    ensures Cong(Defect(x1, y1, x2, l), 0, p)
  {
    hide Rem, Cong, Defect;
    var d, c := x2 - x1, x2 * x2 * x2 - x1 * x1 * x1;
    DefectIdentity(x1, y1, x2, l);
    SlopeProduct(l * d, y1, y2, p);
    CongAdd(y2 * y2, x2 * x2 * x2 + 1, y1 * y1, x1 * x1 * x1 + 1, p);
    VanishingFactor(d, Defect(x1, y1, x2, l), (l * d) * (2 * y1 + l * d), y2 * y2 - y1 * y1, c, p);
  }

  lemma SlopeProduct(e: int, y1: int, y2: int, p: Pos)
    requires Cong(e, y2 - y1, p)
    ensures Cong(e * (2 * y1 + e), y2 * y2 - y1 * y1, p)
  {
    hide Rem, Cong;
    CongSelf(2 * y1, p);
    CongAdd(2 * y1, 2 * y1, e, y2 - y1, p);
    CongMul(e, y2 - y1, 2 * y1 + e, y2 + y1, p);
    SquareDifference(y2, y1);
  }

  lemma VanishingFactor(d: int, s: int, u: int, v: int, c: int, p: Pos)
    requires Prime(p) && !Cong(d, 0, p) && d * s == u - c && Cong(u, v, p) && Cong(v, c, p)
    ensures Cong(s, 0, p)
  {
    hide Rem, Cong, Prime;
    CongTrans(u, v, c, p);
    CongSelf(c, p);
    CongAdd(u, c, c, c, p);
    EuclidLemma(d, s, p);
  }

  lemma SquareDifference(a: int, b: int)
    ensures (a - b) * (a + b) == a * a - b * b
  {
  }

  lemma TangentDefect(x1: int, y1: int, l: int, p: Pos)
    requires Cong(l * (2 * y1), 3 * x1 * x1, p)
    ensures Cong(Defect(x1, y1, x1, l), 0, p)
  {
    assert l * (x1 - x1) == 0;
    assert Defect(x1, y1, x1, l) == l * (2 * y1) - 3 * x1 * x1;
    hide Rem, Defect;
    CongAdd(l * (2 * y1), 3 * x1 * x1, 3 * x1 * x1, 3 * x1 * x1, p);
  }

  // Two points with the same abscissa are equal or opposite.
  lemma SameAbscissa(P: Pt, Q: Pt, p: Pos)
    requires Prime(p) && P.A? && Q.A? && P.x == Q.x && OnCurve(P, p) && OnCurve(Q, p)
    ensures P == Q || Rem(P.y + Q.y, p) == 0
    ensures P == Q && Rem(P.y + Q.y, p) != 0 ==> !Cong(P.y, 0, p)
  {
    assert (P.y - Q.y) * (P.y + Q.y) == P.y * P.y - Q.y * Q.y;
    CongAdd(P.y * P.y, Q.y * Q.y, Q.y * Q.y, Q.y * Q.y, p);
    ModIntro(0, 0, 0, p);
    EuclidLemma(P.y - Q.y, P.y + Q.y, p);
    if P != Q { DistinctNotCong(P.y, Q.y, p); }
    if Cong(P.y, 0, p) { CongAdd(P.y, 0, P.y, 0, p); }
  }

  lemma AddOnCurve(P: Pt, Q: Pt, p: Pos)
    requires Field(p) && OnCurve(P, p) && OnCurve(Q, p)
    ensures OnCurve(Plus(P, Q, p), p)
  {
    if P.A? && Q.A? {
      if P.x != Q.x {
        ChordSlopeCorrect(P, Q, p);
        DistinctNotCong(P.x, Q.x, p);
        ChordDefect(P.x, P.y, Q.x, Q.y, ChordSlope(P, Q, p), p);
        ThirdOnCurve(P, Q.x, ChordSlope(P, Q, p), p);
      } else if Rem(P.y + Q.y, p) != 0 {
        SameAbscissa(P, Q, p);
        TangentSlopeCorrect(P, p);
        TangentDefect(P.x, P.y, TangentSlope(P, p), p);
        ThirdOnCurve(P, P.x, TangentSlope(P, p), p);
      }
    }
  }

  lemma NegOnCurve(P: Pt, p: Pos)
    requires Field(p) && OnCurve(P, p)
    ensures OnCurve(Neg(P, p), p) && Plus(P, Neg(P, p), p) == O && Plus(Neg(P, p), P, p) == O
  {
    if P.A? {
      CongMod(-P.y, p);
      ModIntro(0, 0, 0, p);
      CongAdd(P.y, P.y, Rem(-P.y, p), -P.y, p);
      CurveCong(P.x, P.x, Rem(-P.y, p), -P.y, p) by { assert (-P.y) * (-P.y) == P.y * P.y; }
    }
  }

  // ----- commutativity -----

  lemma AddCommutes(P: Pt, Q: Pt, p: Pos)
    requires Field(p) && OnCurve(P, p) && OnCurve(Q, p)
    ensures Plus(P, Q, p) == Plus(Q, P, p)
  {
    if P.A? && Q.A? {
      if P.x == Q.x {
        SameAbscissa(P, Q, p);
      } else {
        SlopeSymmetric(P, Q, p);
        ChordSlopeCorrect(P, Q, p);
        SameThird(P, Q, ChordSlope(P, Q, p), p);
      }
    }
  }

  lemma SlopeSymmetric(P: Pt, Q: Pt, p: Pos)
    requires Field(p) && P.A? && Q.A? && P.x != Q.x && OnCurve(P, p) && OnCurve(Q, p)
    ensures ChordSlope(P, Q, p) == ChordSlope(Q, P, p)
  {
    var l, k := ChordSlope(P, Q, p), ChordSlope(Q, P, p);
    CongMod((Q.y - P.y) * Inv(Q.x - P.x, p), p);
    CongMod((P.y - Q.y) * Inv(P.x - Q.x, p), p);
    ChordSlopeCorrect(P, Q, p); ChordSlopeCorrect(Q, P, p);
    DistinctNotCong(P.x, Q.x, p);
    SlopeUnique(l, k, Q.x - P.x, P.x - Q.x, Q.y - P.y, P.y - Q.y, p);
  }

  lemma SlopeUnique(l: int, k: int, d: int, d': int, e: int, e': int, p: Pos)
    requires Prime(p) && 0 <= l < p && 0 <= k < p && d' == -d && e' == -e
    requires Cong(l * d, e, p) && Cong(k * d', e', p) && !Cong(d, 0, p)
    ensures l == k
  {
    hide Rem;
    CongMul(-1, -1, k * d', e', p);
    assert -1 * (k * d') == d * k && l * d == d * l && -1 * e' == e;
    Cancel(d, l, k, p);
    CongSmall(l, k, p);
  }

  lemma SameThird(P: Pt, Q: Pt, l: int, p: Pos)
    requires P.A? && Q.A? && Cong(l * (Q.x - P.x), Q.y - P.y, p)
    ensures Third(P, Q.x, l, p) == Third(Q, P.x, l, p)
  {
    assert l * l - P.x - Q.x == l * l - Q.x - P.x;
    var x3 := Rem(l * l - P.x - Q.x, p);
    hide Rem;
    var a, b := l * (P.x - x3) - P.y, l * (Q.x - x3) - Q.y;
    assert b - a == l * (Q.x - P.x) - (Q.y - P.y);
    CongAdd(l * (Q.x - P.x), Q.y - P.y, Q.y - P.y, Q.y - P.y, p);
    CongAdd(b - a, 0, a, a, p);
  }
}
