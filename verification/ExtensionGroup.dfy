// Sums on y^2 = x^3 + 1 over F_p^2 as point_add forms them, and the multiples of a
// point of given order.
module ExtensionGroup {
  import opened NumberTheory
  import opened Powers
  import opened EllipticCurve
  import opened PointGroup
  import opened Fp2
  import opened Curves
  import opened PointAddition
  import opened Closure

  datatype Pt2 = O2 | A2(x: Gauss, y: Gauss)

  ghost predicate Field2(p: Pos) { Prime(p) && p % 4 == 3 }

  predicate Canonical2(T: Pt2, p: Pos) { T.A2? ==> Canonical(T.x, p) && Canonical(T.y, p) }

  ghost predicate On2(T: Pt2, p: Pos) {
    Canonical2(T, p) && (T.A2? ==> OnCurve2(T.x, T.y, p))
  }

  // The point that an object holds.
  function Held(R: Point): Pt2
    reads R, R.x, R.y
  {
    if R.infinity then O2 else A2(R.x.Val(), R.y.Val())
  }

  // ----- slopes and sums -----

  function Quot2(n: Gauss, d: Gauss, p: Pos): Gauss {
    Red(Scale(Inv(Norm(d), p), Mul(n, Conj(d))), p)
  }

  function Third2(x1: Gauss, y1: Gauss, x2: Gauss, l: Gauss, p: Pos): Pt2 {
    var x3 := Red(Sub(Sub(Mul(l, l), x1), x2), p);
    A2(x3, Red(Sub(Mul(l, Sub(x1, x3)), y1), p))
  }

  function Tangent2(S: Pt2, p: Pos): Pt2
    requires S.A2?
  {
    Third2(S.x, S.y, S.x, Quot2(Mul(Scale(3, S.x), S.x), Add(S.y, S.y), p), p)
  }

  function Chord2(S: Pt2, T: Pt2, p: Pos): Pt2
    requires S.A2? && T.A2?
  {
    Third2(S.x, S.y, T.x, Quot2(Sub(T.y, S.y), Sub(T.x, S.x), p), p)
  }

  // The sum as point_add answers it: opposite points are recognised by the
  // uncorrected negation, and a division by zero gives slope 0.
  function CodeSum(S: Pt2, T: Pt2, p: Pos): Pt2 {
    if S.O2? then T
    else if T.O2? then S
    else if S.x != T.x then Chord2(S, T, p)
    else if S.y == G(p - T.y.a, p - T.y.b) then O2
    else Tangent2(S, p)
  }

  // The group law: opposite points add to O.
  function Plus2(S: Pt2, T: Pt2, p: Pos): Pt2 {
    if S.O2? then T
    else if T.O2? then S
    else if S.x != T.x then Chord2(S, T, p)
    else if Red(Add(S.y, T.y), p) == ZERO then O2
    else Tangent2(S, p)
  }

  // The sums on which point_add divides by zero: a point of order two and one with
  // its abscissa.
  predicate OrderTwo(T: Pt2) { T.A2? && T.y == ZERO }

  predicate Clash(S: Pt2, T: Pt2) { OrderTwo(S) && T.A2? && S.x == T.x }

  lemma Quot2Correct(n: Gauss, d: Gauss, p: Pos)
    requires Field2(p) && !CongG(d, ZERO, p)
    ensures CongG(Mul(Quot2(n, d, p), d), n, p)
  {
    hide Mul, Norm, Scale, Red;
    NormInvertible(d, p);
    PrimeInvertible(Norm(d), p);
    InvCorrect(Norm(d), p);
    CongGRed(Scale(Inv(Norm(d), p), Mul(n, Conj(d))), p);
    QuotientIsRight(n, d, Inv(Norm(d), p), Quot2(n, d, p), p);
  }

  lemma Third2Is(x1: Gauss, y1: Gauss, x2: Gauss, l: Gauss, p: Pos)
    ensures var T := Third2(x1, y1, x2, l, p);
            T.A2? && ThirdPoint(x1, y1, x2, l, T.x, T.y, p) && Canonical(T.x, p) && Canonical(T.y, p)
  {
    hide Mul, Sub, Rem;
    var x3 := Red(Sub(Sub(Mul(l, l), x1), x2), p);
    CanonicalRed(Sub(Sub(Mul(l, l), x1), x2), p);
    CanonicalRed(Sub(Mul(l, Sub(x1, x3)), y1), p);
  }

  // The slope and the first point determine the third one.
  lemma Third2Unique(x1: Gauss, y1: Gauss, x2: Gauss, l: Gauss, k: Gauss, x3: Gauss, y3: Gauss, p: Pos)
    requires CongG(l, k, p) && ThirdPoint(x1, y1, x2, l, x3, y3, p) && Canonical(x3, p) && Canonical(y3, p)
    ensures A2(x3, y3) == Third2(x1, y1, x2, k, p)
  {
    hide Mul, Sub, Rem, Canonical, Red;
    CongGMul(l, k, l, k, p);
    CongGAdd(Mul(l, l), Mul(k, k), x1, x1, p);
    CongGAdd(Sub(Mul(l, l), x1), Sub(Mul(k, k), x1), x2, x2, p);
    CanonicalIsRed(x3, Sub(Sub(Mul(k, k), x1), x2), p);
    CongGMul(l, k, Sub(x1, x3), Sub(x1, x3), p);
    CongGAdd(Mul(l, Sub(x1, x3)), Mul(k, Sub(x1, x3)), y1, y1, p);
    CanonicalIsRed(y3, Sub(Mul(k, Sub(x1, x3)), y1), p);
  }

  lemma ChordUnique(S: Pt2, T: Pt2, x3: Gauss, y3: Gauss, p: Pos)
    requires Field2(p) && S.A2? && T.A2? && !CongG(Sub(T.x, S.x), ZERO, p)
    requires Chord(S.x, S.y, T.x, T.y, x3, y3, p) && Canonical(x3, p) && Canonical(y3, p)
    ensures A2(x3, y3) == Chord2(S, T, p)
  {
    hide Mul, Sub, Red, Quot2, Third2, ThirdPoint, Canonical;
    var d, n := Sub(T.x, S.x), Sub(T.y, S.y);
    var l :| CongG(Mul(l, d), n, p) && ThirdPoint(S.x, S.y, T.x, l, x3, y3, p);
    Quot2Correct(n, d, p);
    QuotientUnique(l, Quot2(n, d, p), d, p);
    Third2Unique(S.x, S.y, T.x, l, Quot2(n, d, p), x3, y3, p);
  }

  lemma TangentUnique(S: Pt2, x3: Gauss, y3: Gauss, p: Pos)
    requires Field2(p) && S.A2? && !CongG(Add(S.y, S.y), ZERO, p)
    requires Tangent(S.x, S.y, x3, y3, p) && Canonical(x3, p) && Canonical(y3, p)
    ensures A2(x3, y3) == Tangent2(S, p)
  {
    hide Mul, Add, Scale, Red, Quot2, Third2, ThirdPoint, Canonical;
    var d, n := Add(S.y, S.y), Mul(Scale(3, S.x), S.x);
    var l :| CongG(Mul(l, d), n, p) && ThirdPoint(S.x, S.y, S.x, l, x3, y3, p);
    Quot2Correct(n, d, p);
    QuotientUnique(l, Quot2(n, d, p), d, p);
    Third2Unique(S.x, S.y, S.x, l, Quot2(n, d, p), x3, y3, p);
  }

  lemma ChordExists(S: Pt2, T: Pt2, p: Pos)
    requires Field2(p) && S.A2? && T.A2? && !CongG(Sub(T.x, S.x), ZERO, p)
    ensures var R := Chord2(S, T, p); R.A2? && Chord(S.x, S.y, T.x, T.y, R.x, R.y, p)
    ensures Canonical(Chord2(S, T, p).x, p) && Canonical(Chord2(S, T, p).y, p)
  {
    hide Mul, Sub, Red, Quot2, ThirdPoint, Canonical;
    Quot2Correct(Sub(T.y, S.y), Sub(T.x, S.x), p);
    Third2Is(S.x, S.y, T.x, Quot2(Sub(T.y, S.y), Sub(T.x, S.x), p), p);
  }

  lemma TangentExists(S: Pt2, p: Pos)
    requires Field2(p) && S.A2? && !CongG(Add(S.y, S.y), ZERO, p)
    ensures var R := Tangent2(S, p); R.A2? && Tangent(S.x, S.y, R.x, R.y, p)
    ensures Canonical(Tangent2(S, p).x, p) && Canonical(Tangent2(S, p).y, p)
  {
    hide Mul, Add, Scale, Red, Quot2, ThirdPoint, Canonical;
    Quot2Correct(Mul(Scale(3, S.x), S.x), Add(S.y, S.y), p);
    Third2Is(S.x, S.y, S.x, Quot2(Mul(Scale(3, S.x), S.x), Add(S.y, S.y), p), p);
  }

  // The divisors are not zero but for a point of order two.
  lemma Divisors(S: Pt2, T: Pt2, p: Pos)
    requires Field2(p) && Canonical2(S, p) && Canonical2(T, p) && S.A2? && T.A2?
    ensures S.x != T.x ==> !CongG(Sub(T.x, S.x), ZERO, p)
    ensures S.y == ZERO <==> CongG(Add(S.y, S.y), ZERO, p)
  {
    if S.x != T.x { DistinctAbscissas(S.x, T.x, p); }
    if CongG(Add(S.y, S.y), ZERO, p) { DoubleIsZero(S.y, p); }
  }

  // For a zero divisor the tangent is the line of slope 0.
  lemma FlatTangent(S: Pt2, p: Pos)
    requires S.A2? && S.y == ZERO
    ensures Tangent2(S, p) == Third2(S.x, S.y, S.x, ZERO, p)
  {
    var n := Mul(Scale(3, S.x), S.x);
    assert CongG(ZERO, ZERO, p) && Add(ZERO, ZERO) == ZERO;
    hide Mul, Scale, Red, Norm, Third2, CongG;
    QuotientByZero(n, ZERO, Inv(Norm(ZERO), p), p);
  }

  lemma FlatUnique(S: Pt2, x3: Gauss, y3: Gauss, p: Pos)
    requires S.A2? && S.y == ZERO
    requires ThirdPoint(S.x, S.y, S.x, ZERO, x3, y3, p) && Canonical(x3, p) && Canonical(y3, p)
    ensures A2(x3, y3) == Tangent2(S, p)
  {
    FlatTangent(S, p);
    assert CongG(ZERO, ZERO, p);
    hide Tangent2, Third2, ThirdPoint, Canonical, CongG;
    Third2Unique(S.x, S.y, S.x, ZERO, ZERO, x3, y3, p);
  }

  // What point_add makes of two finite points is their CodeSum, whether they are
  // on the curve or not.
  lemma SumIsCode(S: Pt2, T: Pt2, infinity: bool, x3: Gauss, y3: Gauss, p: Pos)
    requires Field2(p) && Canonical2(S, p) && Canonical2(T, p) && S.A2? && T.A2?
    requires FiniteSum(S.x, S.y, T.x, T.y, infinity, x3, y3, p)
    ensures (if infinity then O2 else A2(x3, y3)) == CodeSum(S, T, p)
  {
    hide Chord, Tangent, Chord2, Tangent2, ThirdPoint, Canonical, Add, Sub, CongG;
    Divisors(S, T, p);
    if !infinity {
      if S.x != T.x { ChordUnique(S, T, x3, y3, p); }
      else if S.y != ZERO { TangentUnique(S, x3, y3, p); }
      else { FlatUnique(S, x3, y3, p); }
    }
  }

  // The CodeSum of finite points is a sum in the sense of point_add.
  lemma CodeIsSum(S: Pt2, T: Pt2, p: Pos)
    requires Field2(p) && Canonical2(S, p) && Canonical2(T, p) && S.A2? && T.A2?
    ensures var R := CodeSum(S, T, p);
            FiniteSum(S.x, S.y, T.x, T.y, R.O2?, if R.A2? then R.x else ZERO, if R.A2? then R.y else ONE, p)
  {
    hide Chord, Tangent, Chord2, Tangent2, ThirdPoint, Third2, Canonical, Add, Sub, CongG;
    Divisors(S, T, p);
    if S.x != T.x {
      ChordExists(S, T, p);
    } else if S.y != ZERO {
      TangentExists(S, p);
    } else {
      FlatTangent(S, p);
      Third2Is(S.x, S.y, S.x, ZERO, p);
    }
  }

  lemma CodeSumCanonical(S: Pt2, T: Pt2, p: Pos)
    requires Canonical2(S, p) && Canonical2(T, p)
    ensures Canonical2(CodeSum(S, T, p), p)
  {
    hide Third2, Canonical, ThirdPoint, Quot2;
    if S.A2? && T.A2? {
      Third2Is(S.x, S.y, T.x, Quot2(Sub(T.y, S.y), Sub(T.x, S.x), p), p);
      Third2Is(S.x, S.y, S.x, Quot2(Mul(Scale(3, S.x), S.x), Add(S.y, S.y), p), p);
    }
  }

  // For p > 3 the sum of points of the curve is on the curve exactly when they do
  // not clash.
  lemma CodeSumCloses(S: Pt2, T: Pt2, p: Pos)
    requires Field2(p) && On2(S, p) && On2(T, p)
    ensures On2(CodeSum(S, T, p), p) <==> !Clash(S, T) || p == 3
  {
    hide CodeSum, FiniteSum, OnCurve2, Canonical;
    if S.A2? && T.A2? {
      CodeIsSum(S, T, p);
      ClashIsFinite(S, T, p);
      var R := CodeSum(S, T, p);
      if R.A2? { SumCloses(S.x, S.y, T.x, T.y, R.x, R.y, p); }
    } else {
      CodeSumO(S, T, p);
    }
  }

  lemma ClashIsFinite(S: Pt2, T: Pt2, p: Pos)
    requires Field2(p) && On2(S, p) && On2(T, p)
    ensures Clash(S, T) ==> CodeSum(S, T, p).A2?
  {
  }

  lemma CodeSumO(S: Pt2, T: Pt2, p: Pos)
    ensures S.O2? ==> CodeSum(S, T, p) == T
    ensures T.O2? ==> CodeSum(S, T, p) == S
  {
  }

  // point_add on any points in canonical coordinates, O included.
  method SumPoints(R: Point, U: Point, V: Point, p: Pos)
    requires Separate(R, U) && Separate(R, V) && Field2(p)
    requires Canonical2(Held(U), p) && Canonical2(Held(V), p)
    modifies R, R.x, R.y
    ensures Held(R) == CodeSum(old(Held(U)), old(Held(V)), p) && Canonical2(Held(R), p)
    ensures old(On2(Held(U), p)) && old(On2(Held(V), p)) ==>
              (On2(Held(R), p) <==> !old(Clash(Held(U), Held(V))) || p == 3)
  {
    hide CodeSum, FiniteSum, OnCurve2, Canonical, Prime;
    ghost var S, T := Held(U), Held(V);
    ghost var good := On2(S, p) && On2(T, p);
    PointAdd(R, U, V, p);
    CodeSumO(S, T, p);
    CodeSumCanonical(S, T, p);
    if good { CodeSumCloses(S, T, p); }
    if S.A2? && T.A2? { SumIsCode(S, T, R.infinity, R.x.Val(), R.y.Val(), p); }
  }

  // ----- what can be made from a point -----

  // T comes from P by at most k rounds of additions, none of them a clash.
  ghost predicate MadeIn(k: nat, T: Pt2, P: Pt2, p: Pos) {
    if k == 0 then T == P || T == O2
    else
      || MadeIn(k - 1, T, P, p)
      || exists U, V :: MadeIn(k - 1, U, P, p) && MadeIn(k - 1, V, P, p) && !Clash(U, V) && T == CodeSum(U, V, p)
  }

  ghost predicate Made(T: Pt2, P: Pt2, p: Pos) { exists k :: MadeIn(k, T, P, p) }

  lemma {:induction false} MadeLater(k: nat, l: nat, T: Pt2, P: Pt2, p: Pos)
    requires k <= l && MadeIn(k, T, P, p)
    ensures MadeIn(l, T, P, p)
    decreases l
  {
    if k < l { MadeLater(k, l - 1, T, P, p); }
  }

  lemma MadeBasis(P: Pt2, p: Pos)
    ensures Made(P, P, p) && Made(O2, P, p)
  {
    assert MadeIn(0, P, P, p) && MadeIn(0, O2, P, p);
  }

  lemma MadeSum(U: Pt2, V: Pt2, P: Pt2, p: Pos)
    requires Made(U, P, p) && Made(V, P, p) && !Clash(U, V)
    ensures Made(CodeSum(U, V, p), P, p)
  {
    hide CodeSum;
    var k :| MadeIn(k, U, P, p);
    var l :| MadeIn(l, V, P, p);
    var m := if k < l then l else k;
    MadeLater(k, m, U, P, p);
    MadeLater(l, m, V, P, p);
    assert MadeIn(m + 1, CodeSum(U, V, p), P, p);
  }

  lemma {:induction false} MadeInOnCurve(k: nat, T: Pt2, P: Pt2, p: Pos)
    requires Field2(p) && On2(P, p) && MadeIn(k, T, P, p)
    ensures On2(T, p)
  {
    hide CodeSum, OnCurve2, Canonical;
    if k > 0 {
      if MadeIn(k - 1, T, P, p) {
        MadeInOnCurve(k - 1, T, P, p);
      } else {
        var U, V :| MadeIn(k - 1, U, P, p) && MadeIn(k - 1, V, P, p) && !Clash(U, V) && T == CodeSum(U, V, p);
        MadeInOnCurve(k - 1, U, P, p);
        MadeInOnCurve(k - 1, V, P, p);
        CodeSumCloses(U, V, p);
      }
    }
  }

  // Everything made from a point of the curve is on the curve.
  lemma MadeOnCurve(T: Pt2, P: Pt2, p: Pos)
    requires Field2(p) && On2(P, p) && Made(T, P, p)
    ensures On2(T, p)
  {
    var k :| MadeIn(k, T, P, p);
    MadeInOnCurve(k, T, P, p);
  }

  // ----- multiples -----

  ghost predicate Associative2(p: Pos) {
    forall P, Q, R :: On2(P, p) && On2(Q, p) && On2(R, p) ==>
      Plus2(Plus2(P, Q, p), R, p) == Plus2(P, Plus2(Q, R, p), p)
  }

  function Times2(n: nat, P: Pt2, p: Pos): Pt2 {
    if n == 0 then O2 else Plus2(Times2(n - 1, P, p), P, p)
  }

  // The multiples of P add up.
  ghost predicate Additive(P: Pt2, p: Pos) {
    forall m: nat, n: nat :: Times2(m + n, P, p) == Plus2(Times2(m, P, p), Times2(n, P, p), p)
  }

  // P is on the curve and none of its first r - 1 multiples is O.
  ghost predicate LongOrder(P: Pt2, r: Pos, p: Pos) {
    On2(P, p) && Additive(P, p) && forall i: nat :: 0 < i < r ==> Times2(i, P, p) != O2
  }

  // P is on the curve and has order r.
  ghost predicate Order2(P: Pt2, r: Pos, p: Pos) {
    On2(P, p) && Additive(P, p) && forall i: nat :: Times2(i, P, p) == O2 <==> Cong(i, 0, r)
  }

  lemma Times2Add(m: nat, n: nat, P: Pt2, p: Pos)
    requires Additive(P, p)
    ensures Times2(m + n, P, p) == Plus2(Times2(m, P, p), Times2(n, P, p), p)
  {
    hide Plus2, Times2;
  }

  lemma OrderOf2(i: nat, P: Pt2, r: Pos, p: Pos)
    requires Order2(P, r, p)
    ensures On2(P, p) && Additive(P, p) && (Times2(i, P, p) == O2 <==> Cong(i, 0, r))
  {
    hide Times2, On2, Additive, Cong;
  }

  lemma OrderIsLong(P: Pt2, r: Pos, p: Pos)
    requires Order2(P, r, p)
    ensures LongOrder(P, r, p)
  {
    hide Times2, On2, Additive, Cong, Order2;
    OrderOf2(0, P, r, p);
    forall i: nat | 0 < i < r ensures Times2(i, P, p) != O2 {
      OrderOf2(i, P, r, p);
      CanonicalNonZero(i, r);
    }
  }

  // Two points with one abscissa and one ordinate zero: both are zero.
  lemma ZeroOrdinates(S: Pt2, T: Pt2, p: Pos)
    requires Field2(p) && On2(S, p) && On2(T, p) && Clash(S, T)
    ensures T.y == ZERO
  {
    hide Mul, Canonical;
    ZeroSquare(S.x, T.y, p) by { MulZero(ZERO); }
    CanonicalIsZero(T.y, p);
  }

  lemma ZeroSquare(x: Gauss, y: Gauss, p: Pos)
    requires Field2(p) && OnCurve2(x, y, p) && OnCurve2(x, ZERO, p) && Mul(ZERO, ZERO) == ZERO
    ensures CongG(y, ZERO, p)
  {
    hide Mul;
    if !CongG(y, ZERO, p) {
      MulZero(y);
      QuotientUnique(y, ZERO, y, p);
    }
  }

  // Where the group law does not give O, point_add gives the group law.
  lemma PlusIsCode(S: Pt2, T: Pt2, p: Pos)
    requires Field2(p) && On2(S, p) && On2(T, p) && (S.A2? && T.A2? ==> Plus2(S, T, p) != O2)
    ensures !Clash(S, T) && CodeSum(S, T, p) == Plus2(S, T, p)
  {
    hide Chord2, Tangent2, OnCurve2, Canonical;
    if S.A2? && T.A2? && S.x == T.x {
      if Clash(S, T) { ZeroOrdinates(S, T, p); ModIntro(0, 0, 0, p); }
      if S.y == G(p - T.y.a, p - T.y.b) { OppositeOrdinates(T.y, p); }
    }
  }

  lemma OppositeOrdinates(y: Gauss, p: Pos)
    ensures Red(Add(G(p - y.a, p - y.b), y), p) == ZERO
  {
    ModIntro(p, 1, 0, p);
  }

  // Where it does, point_add gives O or doubles the first point.
  lemma OppositeIsCode(S: Pt2, T: Pt2, p: Pos)
    requires Field2(p) && On2(S, p) && On2(T, p) && S.A2? && T.A2? && Plus2(S, T, p) == O2 && !Clash(S, T)
    ensures CodeSum(S, T, p) == O2 || CodeSum(S, T, p) == Plus2(S, S, p)
  {
    hide Chord2, Tangent2, OnCurve2, Canonical, Add;
    assert S.x == T.x by { ChordIsFinite(S, T, p); }
    DoubleOrdinate(S.y, p);
  }

  lemma ChordIsFinite(S: Pt2, T: Pt2, p: Pos)
    requires S.A2? && T.A2?
    ensures Chord2(S, T, p).A2? && Tangent2(S, p).A2? && Tangent2(T, p).A2?
  {
    hide Quot2;
  }

  lemma DoubleOrdinate(y: Gauss, p: Pos)
    requires Field2(p) && Canonical(y, p)
    ensures Red(Add(y, y), p) == ZERO <==> y == ZERO
  {
    ModIntro(0, 0, 0, p);
    if Red(Add(y, y), p) == ZERO { DoubleIsZero(y, p); }
  }

  lemma Plus2Closes(S: Pt2, T: Pt2, p: Pos)
    requires Field2(p) && On2(S, p) && On2(T, p)
    ensures On2(Plus2(S, T, p), p)
  {
    hide Plus2, CodeSum, OnCurve2, Canonical;
    if Plus2(S, T, p) != O2 {
      PlusIsCode(S, T, p);
      CodeSumCloses(S, T, p);
    }
  }

  lemma {:induction false} Times2OnCurve(n: nat, P: Pt2, p: Pos)
    requires Field2(p) && On2(P, p)
    ensures On2(Times2(n, P, p), p)
  {
    hide Plus2, OnCurve2, Canonical;
    if n > 0 {
      Times2OnCurve(n - 1, P, p);
      Plus2Closes(Times2(n - 1, P, p), P, p);
    }
  }

  lemma Plus2O(S: Pt2, p: Pos)
    ensures Plus2(S, O2, p) == S && Plus2(O2, S, p) == S
  {
  }

  lemma Times2Step(n: nat, P: Pt2, p: Pos)
    ensures Times2(n + 1, P, p) == Plus2(Times2(n, P, p), P, p)
  {
    hide Plus2;
  }

  lemma Times2Zero(P: Pt2, p: Pos)
    ensures Times2(0, P, p) == O2 && Times2(1, P, p) == P
  {
    assert Times2(1, P, p) == Plus2(Times2(0, P, p), P, p);
  }

  // Below the order the multiples that point_add forms are the true ones.
  lemma NextMultiple(i: nat, j: nat, P: Pt2, r: Pos, p: Pos)
    requires Field2(p) && LongOrder(P, r, p) && i + j < r
    ensures var S, T := Times2(i, P, p), Times2(j, P, p);
            !Clash(S, T) && CodeSum(S, T, p) == Times2(i + j, P, p)
  {
    hide Plus2, CodeSum, Clash, On2, Additive, Times2;
    Times2Add(i, j, P, p);
    Times2OnCurve(i, P, p);
    Times2OnCurve(j, P, p);
    Times2Zero(P, p);
    PlusIsCode(Times2(i, P, p), Times2(j, P, p), p);
  }

  // Whatever the order, a sum of multiples without a clash is a multiple.
  lemma SomeMultiple(i: nat, j: nat, P: Pt2, p: Pos) returns (k: nat)
    requires Field2(p) && On2(P, p) && Additive(P, p) && !Clash(Times2(i, P, p), Times2(j, P, p))
    ensures CodeSum(Times2(i, P, p), Times2(j, P, p), p) == Times2(k, P, p)
  {
    hide Plus2, CodeSum, Clash, On2, Additive, Times2;
    var S, T := Times2(i, P, p), Times2(j, P, p);
    Times2OnCurve(i, P, p);
    Times2OnCurve(j, P, p);
    Times2Add(i, j, P, p);
    if S.A2? && T.A2? && Plus2(S, T, p) == O2 {
      OppositeIsCode(S, T, p);
      Times2Add(i, i, P, p);
      Times2Zero(P, p);
      k := if CodeSum(S, T, p) == O2 then 0 else i + i;
    } else {
      PlusIsCode(S, T, p);
      k := i + j;
    }
  }

  // A multiple has order two exactly when its double is O and it is not.
  lemma OrderTwoMultiple(k: nat, P: Pt2, p: Pos)
    requires Field2(p) && On2(P, p) && Additive(P, p)
    ensures var T := Times2(k, P, p); OrderTwo(T) <==> T != O2 && Times2(k + k, P, p) == O2
  {
    hide On2, Additive, Times2;
    var T := Times2(k, P, p);
    Times2OnCurve(k, P, p);
    Times2Add(k, k, P, p);
    if T.A2? { DoubleIsO2(T, p); }
  }

  lemma DoubleIsO2(T: Pt2, p: Pos)
    requires Field2(p) && On2(T, p) && T.A2?
    ensures Plus2(T, T, p) == O2 <==> T.y == ZERO
  {
    hide OnCurve2, Canonical, Chord2, Tangent2, Add, Red;
    DoubleOrdinate(T.y, p);
    ChordIsFinite(T, T, p);
  }

  // ----- points whose multiples add up -----

  // Associativity suffices.
  lemma {:induction false} AssociativeAdd(m: nat, n: nat, P: Pt2, p: Pos)
    requires Field2(p) && Associative2(p) && On2(P, p)
    ensures Times2(m + n, P, p) == Plus2(Times2(m, P, p), Times2(n, P, p), p)
  {
    hide Plus2, On2, Times2, Associative2;
    Plus2O(Times2(m, P, p), p);
    Times2Zero(P, p);
    if n > 0 {
      var S, T := Times2(m, P, p), Times2(n - 1, P, p);
      AssociativeAdd(m, n - 1, P, p);
      Times2OnCurve(m, P, p);
      Times2OnCurve(n - 1, P, p);
      Times2Step(n - 1, P, p);
      Times2Step(m + n - 1, P, p);
      AssociativeAt(S, T, P, p);
    }
  }

  lemma AssociativeAt(P: Pt2, Q: Pt2, R: Pt2, p: Pos)
    requires Associative2(p) && On2(P, p) && On2(Q, p) && On2(R, p)
    ensures Plus2(Plus2(P, Q, p), R, p) == Plus2(P, Plus2(Q, R, p), p)
  {
    hide Plus2, On2;
  }

  lemma AssociativeAdditive(P: Pt2, p: Pos)
    requires Field2(p) && Associative2(p) && On2(P, p)
    ensures Additive(P, p)
  {
    hide Plus2, On2, Times2, Associative2;
    forall m: nat, n: nat ensures Times2(m + n, P, p) == Plus2(Times2(m, P, p), Times2(n, P, p), p) {
      AssociativeAdd(m, n, P, p);
    }
  }

  // Points of E/F_p as points over F_p^2.
  function Embed(T: Pt): Pt2 {
    if T.O? then O2 else A2(G(T.x, 0), G(T.y, 0))
  }

  lemma EmbedOnCurve(T: Pt, p: Pos)
    requires OnCurve(T, p)
    ensures On2(Embed(T), p)
  {
    if T.A? {
      RealEmbedding(T.y, T.y); RealEmbedding(T.x, T.x); RealEmbedding(T.x * T.x, T.x);
      RealEmbedding(T.x * T.x * T.x, 1);
      RealCong(T.y * T.y, T.x * T.x * T.x + 1, p);
    }
  }

  // On E/F_p the two laws agree.
  lemma EmbedSum(S: Pt, T: Pt, p: Pos)
    requires Field(p) && Field2(p) && OnCurve(S, p) && OnCurve(T, p)
    ensures Plus2(Embed(S), Embed(T), p) == Embed(Plus(S, T, p))
  {
    hide CodeSum, FiniteSum, OnCurve2, OnCurve, Plus, Plus2, Canonical;
    EmbedOnCurve(S, p); EmbedOnCurve(T, p);
    if S.A? && T.A? {
      EmbedIsO(S, T, p);
      if Plus(S, T, p) != O {
        PlusIsCode(Embed(S), Embed(T), p);
        CodeIsSum(Embed(S), Embed(T), p);
        var R := CodeSum(Embed(S), Embed(T), p);
        RealSum(S, T, R.O2?, if R.A2? then R.x else ZERO, if R.A2? then R.y else ONE, p);
      }
    } else {
      Plus2O(Embed(S), p); Plus2O(Embed(T), p);
      PlusO(S, p); PlusO(T, p);
    }
  }

  lemma EmbedIsO(S: Pt, T: Pt, p: Pos)
    requires S.A? && T.A?
    ensures Plus2(Embed(S), Embed(T), p) == O2 <==> Plus(S, T, p) == O
  {
    hide Chord2, Tangent2, Third, ChordSlope, TangentSlope;
    ChordIsFinite(Embed(S), Embed(T), p);
    ModIntro(0, 0, 0, p);
    ThirdFinite(S, T, p);
  }

  lemma ThirdFinite(S: Pt, T: Pt, p: Pos)
    requires S.A? && T.A?
    ensures Third(S, T.x, ChordSlope(S, T, p), p).A? && Third(S, S.x, TangentSlope(S, p), p).A?
  {
    hide ChordSlope, TangentSlope;
  }

  lemma {:induction false} EmbedTimes(n: nat, P: Pt, p: Pos)
    requires GroupLaw(p) && Field2(p) && OnCurve(P, p)
    ensures Times2(n, Embed(P), p) == Embed(Times(n, P, p))
  {
    hide Plus2, Plus, Times, Times2, OnCurve, Associative, Embed;
    TimesOne(P, p);
    Times2Zero(Embed(P), p);
    if n == 0 {
      EmbedO();
    } else {
      EmbedTimes(n - 1, P, p);
      Times2Step(n - 1, Embed(P), p);
      TimesSucc(n - 1, P, p);
      TimesOnCurve(n - 1, P, p);
      EmbedSum(Times(n - 1, P, p), P, p);
    }
  }

  lemma EmbedO()
    ensures Embed(O) == O2
  {
  }

  // A point of E/F_p has the same order over F_p^2.
  lemma RealOrder(P: Pt, r: Pos, p: Pos)
    requires GroupLaw(p) && p % 4 == 3 && HasOrder(P, r, p)
    ensures Order2(Embed(P), r, p)
  {
    hide Times, Times2, Plus, Plus2, OnCurve, Associative, On2, Cong, HasOrder, Prime;
    OrderOf(0, P, r, p);
    EmbedOnCurve(P, p);
    forall i: nat ensures Times2(i, Embed(P), p) == O2 <==> Cong(i, 0, r) {
      OrderOf(i, P, r, p);
      EmbedTimes(i, P, p);
    }
    forall m: nat, n: nat
      ensures Times2(m + n, Embed(P), p) == Plus2(Times2(m, Embed(P), p), Times2(n, Embed(P), p), p)
    {
      EmbedTimes(m + n, P, p); EmbedTimes(m, P, p); EmbedTimes(n, P, p);
      TimesAdd(m, n, P, p);
      TimesOnCurve(m, P, p); TimesOnCurve(n, P, p);
      EmbedSum(Times(m, P, p), Times(n, P, p), p);
    }
  }

  // ----- a prime that annihilates a point is its order -----

  lemma {:induction false} MultipleOfZero(k: nat, i: nat, P: Pt2, p: Pos)
    requires Additive(P, p) && Times2(i, P, p) == O2
    ensures k * i >= 0 && Times2(k * i, P, p) == O2
  {
    hide Plus2, Times2, Additive;
    if k == 0 {
      Times2Zero(P, p);
    } else {
      MultipleOfZero(k - 1, i, P, p);
      assert k * i == (k - 1) * i + i;
      Times2Add((k - 1) * i, i, P, p);
      Plus2O(O2, p);
    }
  }

  lemma PrimeOrder2(P: Pt2, q: Pos, p: Pos)
    requires On2(P, p) && Additive(P, p) && P != O2 && Prime(q) && Times2(q, P, p) == O2
    ensures Order2(P, q, p)
  {
    hide Times2, Additive, On2, Prime, Cong;
    forall i: nat ensures Times2(i, P, p) == O2 <==> Cong(i, 0, q) {
      PrimeAnnihilates(i, P, q, p);
    }
  }

  lemma PrimeAnnihilates(i: nat, P: Pt2, q: Pos, p: Pos)
    requires Additive(P, p) && P != O2 && Prime(q) && Times2(q, P, p) == O2
    ensures Times2(i, P, p) == O2 <==> Cong(i, 0, q)
  {
    hide Times2, Additive, Plus2, Rem;
    if Cong(i, 0, q) {
      var m := CongElim(i, 0, q);
      NonNegativeFactor(m, q);
      MultipleOfZero(m, q, P, p);
    } else if Times2(i, P, p) == O2 {
      PrimeInvertible(i, q);
      var u: nat :| IsInverse(i, u, q);
      ModIntro(1, 0, 1, q);
      assert Cong(i * u, 1, q) by { InverseCong(i, u, q); }
      var m := CongElim(i * u, 1, q);
      MultipleOfZero(u, i, P, p);
      NonNegativeFactor(m + 1, q);
      assert u * i == m * q + 1 && (m + 1) * q == m * q + q;
      NonNegativeQuotient(m, q);
      MultipleOfZero(m, q, P, p);
      Times2Add(m * q, 1, P, p);
      Times2Zero(P, p);
      Plus2O(P, p);
    }
  }

  lemma InverseCong(i: int, u: int, q: Pos)
    requires IsInverse(i, u, q)
    ensures Cong(i * u, 1, q)
  {
    ModIntro(1, 0, 1, q);
  }

  lemma NonNegativeFactor(m: int, q: Pos)
    ensures m * q >= 0 ==> m >= 0
  {
    MulAtLeast(q, m);
  }

  lemma NonNegativeQuotient(m: int, q: Pos)
    requires q > 1 && m * q + 1 >= 0
    ensures m >= 0
  {
    MulAtLeast(q, m);
  }

  // When q P = O, reducing a modulo q does not change a P; for a negative a the
  // result is the opposite of -a P.
  lemma ReducedMultiple2(a: int, P: Pt2, q: Pos, p: Pos)
    requires Additive(P, p) && Times2(q, P, p) == O2
    ensures a >= 0 ==> Times2(Rem(a, q), P, p) == Times2(a, P, p)
    ensures a < 0 ==> Plus2(Times2(Rem(a, q), P, p), Times2(-a, P, p), p) == O2
  {
    hide Plus2, Times2, Rem, Additive;
    var n := Rem(a, q);
    var k: nat := Multiple(a, q);
    MultipleOfZero(k, q, P, p);
    if a >= 0 {
      Times2Add(n, k * q, P, p);
      Plus2O(Times2(n, P, p), p);
    } else {
      Times2Add(n, -a, P, p);
    }
  }

  lemma Multiple(a: int, q: Pos) returns (k: nat)
    ensures a >= 0 ==> a == Rem(a, q) + k * q
    ensures a < 0 ==> Rem(a, q) - a == k * q
  {
    var d := a / q;
    assert a == q * d + Rem(a, q);
    k := if d >= 0 then d else -d;
    assert d * q == q * d && -d * q == -(q * d);
  }
}
