// The hypotheses about the curve are consistent: over F_11 the law is
// associative, and the point (0, 1) of order 3 satisfies everything that the
// pairing asks for.
module Instance {
  import opened NumberTheory
  import opened Bits
  import opened EllipticCurve
  import opened PointGroup
  import opened Powers
  import opened Curves
  import opened PointAddition
  import opened Closure
  import opened ExtensionGroup
  import opened GeneralCourse
  import opened PhiGroup
  import opened SolinasPoints
  import opened Fp2
  import opened Miller
  import opened MillerLoop
  import opened MillerNorm
  import opened FinalPower

  // The twelve points, multiples of (7, 5).
  function At(i: nat): Pt {
    if i == 0 then O else if i == 1 then A(7, 5) else if i == 2 then A(2, 8) else if i == 3 then A(5, 7)
    else if i == 4 then A(0, 10) else if i == 5 then A(9, 9) else if i == 6 then A(10, 0) else if i == 7 then A(9, 2)
    else if i == 8 then A(0, 1) else if i == 9 then A(5, 4) else if i == 10 then A(2, 3) else A(7, 6)
  }

  lemma Points()
    ensures At(0) == O && At(1) == A(7, 5) && At(2) == A(2, 8) && At(3) == A(5, 7) && At(4) == A(0, 10)
    ensures At(5) == A(9, 9) && At(6) == A(10, 0) && At(7) == A(9, 2) && At(8) == A(0, 1)
    ensures At(9) == A(5, 4) && At(10) == A(2, 3) && At(11) == A(7, 6)
  {
  }

  function Index(i: nat, j: nat): nat { if i + j < 12 then i + j else i + j - 12 }

  ghost predicate Sums(i: nat, j: nat)
    requires i < 12 && j < 12
  {
    Plus(At(i), At(j), 11) == At(Index(i, j)) && Plus(At(j), At(i), 11) == At(Index(i, j))
  }

  lemma PrimeEleven()
    ensures Field(11)
  {
  }

  lemma AtOnCurve(i: nat)
    requires i < 12
    ensures OnCurve(At(i), 11)
  {
  }

  // The chord of slope l through two points; k1, k2 and k3 are quotients by 11.
  lemma Chord(i: nat, j: nat, l: int, k1: int, k2: int, k3: int)
    requires 0 < i < 12 && 0 < j < 12 && 0 <= l < 11
    requires var P, Q, R := At(i), At(j), At(Index(i, j));
             && P.A? && Q.A? && R.A? && P.x != Q.x && l * (Q.x - P.x) - (Q.y - P.y) == k1 * 11
             && l * l - P.x - Q.x == k2 * 11 + R.x && l * (P.x - R.x) - P.y == k3 * 11 + R.y
    ensures Sums(i, j)
  {
    hide At, Plus, OnCurve, Prime;
    PrimeEleven();
    AtOnCurve(i); AtOnCurve(j); AtOnCurve(Index(i, j));
    AddCommutes(At(i), At(j), 11);
    ChordSum(At(i), At(j), l, At(Index(i, j)), k1, k2, k3);
  }

  lemma ChordSum(P: Pt, Q: Pt, l: int, R: Pt, k1: int, k2: int, k3: int)
    requires Field(11) && OnCurve(P, 11) && OnCurve(Q, 11) && OnCurve(R, 11) && 0 <= l < 11
    requires P.A? && Q.A? && R.A? && P.x != Q.x && l * (Q.x - P.x) - (Q.y - P.y) == k1 * 11
    requires l * l - P.x - Q.x == k2 * 11 + R.x && l * (P.x - R.x) - P.y == k3 * 11 + R.y
    ensures Plus(P, Q, 11) == R
  {
    hide Prime, Third, ChordSlope, TangentSlope;
    SlopeBounds(P, Q);
    ThirdIs(P, Q.x, l, R, k2, k3);
    ChordSlopeCorrect(P, Q, 11);
    CongIntro(l * (Q.x - P.x), Q.y - P.y, k1, 11);
    SameSlope(l, ChordSlope(P, Q, 11), Q.x - P.x, Q.y - P.y);
  }

  lemma SlopeBounds(P: Pt, Q: Pt)
    requires P.A? && Q.A?
    ensures 0 <= ChordSlope(P, Q, 11) < 11
  {
  }

  // The tangent of slope l at (x, y).
  lemma Tangent(i: nat, x: int, y: int, l: int, k1: int, k2: int, k3: int)
    requires 0 < i < 12 && 0 <= l < 11 && At(i) == A(x, y) && y != 0 && At(Index(i, i)).A?
    requires var R := At(Index(i, i));
             && l * (2 * y) - 3 * x * x == k1 * 11
             && l * l - x - x == k2 * 11 + R.x && l * (x - R.x) - y == k3 * 11 + R.y
    ensures Sums(i, i)
  {
    PrimeEleven();
    AtOnCurve(i); AtOnCurve(Index(i, i));
    var P, R := At(i), At(Index(i, i));
    hide At, Prime;
    ThirdIs(P, P.x, l, R, k2, k3);
    Doubled(P.y);
    TangentSlopeCorrect(P, 11);
    TwoUnit(P.y, 11);
    CongIntro(l * (2 * P.y), 3 * P.x * P.x, k1, 11);
    SameSlope(l, TangentSlope(P, 11), 2 * P.y, 3 * P.x * P.x);
  }

  lemma ThirdIs(P: Pt, x2: int, l: int, R: Pt, k2: int, k3: int)
    requires P.A? && R.A? && 0 <= R.x < 11 && 0 <= R.y < 11
    requires l * l - P.x - x2 == k2 * 11 + R.x && l * (P.x - R.x) - P.y == k3 * 11 + R.y
    ensures Third(P, x2, l, 11) == R
  {
    ModIntro(l * l - P.x - x2, k2, R.x, 11);
    ModIntro(l * (P.x - R.x) - P.y, k3, R.y, 11);
  }

  lemma Doubled(y: int)
    requires 0 < y < 11
    ensures !Cong(y, 0, 11) && Rem(y + y, 11) != 0
  {
  }

  lemma SameSlope(l: int, k: int, d: int, n: int)
    requires Prime(11) && 0 <= l < 11 && 0 <= k < 11 && !Cong(d, 0, 11) && Cong(l * d, n, 11) && Cong(k * d, n, 11)
    ensures l == k
  {
    hide Rem;
    assert l * d == d * l && k * d == d * k;
    Cancel(d, l, k, 11);
    CongSmall(l, k, 11);
  }

  lemma Row1()
    ensures forall j :: 1 < j < 12 && j != 12 - 1 ==> Sums(1, j)
  {
    hide Sums, At;
    Points();
    Chord(1, 2, 6, -3, 2, 0); Chord(1, 3, 10, -2, 8, 5); Chord(1, 4, 4, -3, 0, -2); Chord(1, 5, 2, 0, -2, -1);
    Chord(1, 6, 2, 1, -2, -1); Chord(1, 7, 4, 1, 0, 2); Chord(1, 8, 10, -6, 8, 1); Chord(1, 9, 6, -1, 2, 2);
    Chord(1, 10, 7, -3, 3, -1);
  }

  lemma Row2()
    ensures forall j :: 2 < j < 12 && j != 12 - 2 ==> Sums(2, j)
  {
    hide Sums, At;
    Points();
    Chord(2, 3, 7, 2, 3, -6); Chord(2, 4, 10, -2, 8, -8); Chord(2, 5, 8, 5, 4, -6); Chord(2, 6, 10, 8, 8, 1);
    Chord(2, 7, 7, 5, 3, -3); Chord(2, 8, 9, -1, 7, -1); Chord(2, 9, 6, 2, 2, -4); Chord(2, 11, 4, 2, 0, -3);
  }

  lemma Row3()
    ensures forall j :: 3 < j < 12 && j != 12 - 3 ==> Sums(3, j)
  {
    hide Sums, At;
    Points();
    Chord(3, 4, 6, -3, 2, -3); Chord(3, 5, 6, 2, 2, 2); Chord(3, 6, 3, 2, -1, -1); Chord(3, 7, 7, 3, 3, 1);
    Chord(3, 8, 10, -4, 8, -3); Chord(3, 10, 5, -1, 1, -2); Chord(3, 11, 5, 1, 1, 0);
  }

  lemma Row4()
    ensures forall j :: 4 < j < 12 && j != 12 - 4 ==> Sums(4, j)
  {
    hide Sums, At;
    Points();
    Chord(4, 5, 6, 5, 2, -4); Chord(4, 6, 10, 10, 8, -3); Chord(4, 7, 4, 4, 0, -4); Chord(4, 9, 1, 1, -1, -2);
    Chord(4, 10, 2, 1, 0, -2); Chord(4, 11, 1, 1, -1, -2);
  }

  lemma Row5()
    ensures forall j :: 5 < j < 12 && j != 12 - 5 ==> Sums(5, j)
  {
    hide Sums, At;
    Points();
    Chord(5, 6, 2, 1, -2, -1); Chord(5, 8, 7, -5, 3, 0); Chord(5, 9, 4, -1, 0, 1); Chord(5, 10, 4, -2, 0, 0);
    Chord(5, 11, 7, -1, 3, 4);
  }

  lemma Row6()
    ensures forall j :: 6 < j < 12 && j != 12 - 6 ==> Sums(6, j)
  {
    hide Sums, At;
    Points();
    Chord(6, 7, 9, -1, 5, 2); Chord(6, 8, 1, -1, -1, 0); Chord(6, 9, 8, -4, 4, 3); Chord(6, 10, 1, -1, -1, 0);
    Chord(6, 11, 9, -3, 5, 0);
  }

  lemma Row7()
    ensures forall j :: 7 < j < 12 && j != 12 - 7 ==> Sums(7, j)
  {
    hide Sums, At;
    Points();
    Chord(7, 8, 5, -4, 1, 1); Chord(7, 9, 5, -2, 1, 3); Chord(7, 10, 3, -2, -1, -1); Chord(7, 11, 9, -2, 5, -1);
  }

  lemma Row8()
    ensures forall j :: 8 < j < 12 && j != 12 - 8 ==> Sums(8, j)
  {
    hide Sums, At;
    Points();
    Chord(8, 9, 5, 2, 1, -5); Chord(8, 10, 1, 0, -1, -1); Chord(8, 11, 7, 4, 3, -6);
  }

  lemma Row9()
    ensures forall j :: 9 < j < 12 && j != 12 - 9 ==> Sums(9, j)
  {
    hide Sums, At;
    Points();
    Chord(9, 10, 4, -1, 0, -2); Chord(9, 11, 1, 0, -1, 0);
  }

  lemma Row10()
    ensures forall j :: 10 < j < 12 && j != 12 - 10 ==> Sums(10, j)
  {
    hide Sums, At;
    Points();
    Chord(10, 11, 5, 2, 1, -2);
  }

  lemma Doubles()
    ensures forall i :: 0 < i < 12 && i != 6 ==> Sums(i, i)
  {
    hide Sums, At;
    Points();
    Tangent(1, 7, 5, 7, -7, 3, 2); Tangent(2, 2, 8, 9, 12, 7, 0); Tangent(3, 5, 7, 3, -3, -1, -2);
    Tangent(4, 0, 10, 0, 0, 0, -1); Tangent(5, 9, 9, 8, -9, 4, 4); Tangent(7, 9, 2, 3, -21, -1, 1);
    Tangent(8, 0, 1, 0, 0, 0, -1); Tangent(9, 5, 4, 8, -1, 4, -4); Tangent(10, 2, 3, 2, 0, 0, 0);
    Tangent(11, 7, 6, 4, -9, 0, 1);
  }

  lemma Opposites(i: nat)
    requires 0 < i < 12
    ensures Sums(i, 12 - i)
  {
    hide Third, TangentSlope, ChordSlope;
  }

  lemma WithO(i: nat)
    requires i < 12
    ensures Sums(0, i) && Sums(i, 0)
  {
    hide Third, TangentSlope, ChordSlope;
  }

  lemma Ordered(i: nat, j: nat)
    requires i <= j < 12
    ensures Sums(i, j)
  {
    hide Sums;
    if i == 0 {
      WithO(j);
    } else if i + j == 12 {
      Opposites(i);
    } else if i == j {
      Doubles();
    } else {
      Row1(); Row2(); Row3(); Row4(); Row5(); Row6(); Row7(); Row8(); Row9(); Row10();
      assert i == 1 || i == 2 || i == 3 || i == 4 || i == 5 || i == 6 || i == 7 || i == 8 || i == 9 || i == 10;
    }
  }

  lemma AllSums(i: nat, j: nat)
    requires i < 12 && j < 12
    ensures Plus(At(i), At(j), 11) == At(Index(i, j))
  {
    hide At, Plus;
    if i <= j { Ordered(i, j); } else { Ordered(j, i); }
  }

  // There are no other points.
  lemma Listed(P: Pt) returns (i: nat)
    requires OnCurve(P, 11)
    ensures i < 12 && At(i) == P
  {
    if P.O? {
      i := 0;
    } else {
      var x, y := P.x, P.y;
      SquareOf(y);
      i := if x == 0 then (if y == 1 then 8 else 4) else if x == 2 then (if y == 3 then 10 else 2)
           else if x == 5 then (if y == 4 then 9 else 3) else if x == 7 then (if y == 5 then 1 else 11)
           else if x == 9 then (if y == 2 then 7 else 5) else 6;
      CubeOf(x);
    }
  }

  function Square(y: int): int {
    if y == 0 then 0 else if y == 1 || y == 10 then 1 else if y == 2 || y == 9 then 4
    else if y == 3 || y == 8 then 9 else if y == 4 || y == 7 then 5 else 3
  }

  lemma SquareOf(y: int)
    requires 0 <= y < 11
    ensures Rem(y * y, 11) == Square(y)
  {
    assert y <= 4 || y == 5 || y == 6 || y >= 7;
  }

  function CubePlusOne(x: int): int {
    if x == 0 then 1 else if x == 1 then 2 else if x == 2 then 9 else if x == 3 then 6 else if x == 4 then 10
    else if x == 5 then 5 else if x == 6 then 8 else if x == 7 then 3 else if x == 8 then 7 else if x == 9 then 4 else 0
  }

  lemma CubeOf(x: int)
    requires 0 <= x < 11
    ensures Rem(x * x * x + 1, 11) == CubePlusOne(x)
  {
  }

  lemma GroupEleven()
    ensures GroupLaw(11)
  {
    PrimeEleven();
    forall P, Q, R | OnCurve(P, 11) && OnCurve(Q, 11) && OnCurve(R, 11)
      ensures Plus(Plus(P, Q, 11), R, 11) == Plus(P, Plus(Q, R, 11), 11)
    {
      AssociativeAt(P, Q, R);
    }
  }

  lemma AssociativeAt(P: Pt, Q: Pt, R: Pt)
    requires OnCurve(P, 11) && OnCurve(Q, 11) && OnCurve(R, 11)
    ensures Plus(Plus(P, Q, 11), R, 11) == Plus(P, Plus(Q, R, 11), 11)
  {
    hide At, Plus, OnCurve;
    var i := Listed(P);
    var j := Listed(Q);
    var k := Listed(R);
    AllSums(i, j); AllSums(j, k);
    AllSums(Index(i, j), k); AllSums(i, Index(j, k));
    assert Index(Index(i, j), k) == Index(i, Index(j, k));
  }

  // The pairing's requirements hold for p = 11, q = 3 = 2^2 - 1 and P = (0, 1).
  lemma SettingEleven(c: Curve)
    requires c.Valid() && c.p == 11 && c.q == 3 && c.solinasa == -2 && c.solinasb == 0
    ensures PairingSetting(c, A(0, 1))
  {
    hide Associative, Prime, OnCurve;
    GroupEleven();
    OrderThree();
    SmallPowers();
  }

  lemma SmallPowers()
    ensures P2(2) == 4 && P2(0) == 1 && BitLen(3) == 2
  {
    assert P2(0) == 1 && P2(1) == 2;
  }

  lemma OrderThree()
    ensures HasOrder(A(0, 1), 3, 11)
  {
    hide Plus, At, OnCurve, Associative, Times, HasOrder, Prime;
    GroupEleven();
    Points();
    AtOnCurve(8);
    var P := A(0, 1);
    AllSums(8, 8); AllSums(4, 8);
    TimesOne(P, 11);
    TimesSucc(1, P, 11); TimesSucc(2, P, 11);
    PrimeThree();
    PrimeOrder(P, 3, 11);
  }

  lemma PrimeThree()
    ensures Prime(3)
  {
  }

  // ----- where point_add departs from the group law -----

  // (7, 5) and (7, 6) are opposite, and point_add answers (2, 8).
  lemma OppositeExample(infinity: bool, x3: Gauss, y3: Gauss)
    requires FiniteSum(G(7, 0), G(5, 0), G(7, 0), G(6, 0), infinity, x3, y3, 11)
    ensures Plus(A(7, 5), A(7, 6), 11) == O && !infinity && x3 == G(2, 0) && y3 == G(8, 0)
  {
    hide FiniteSum, Plus, At, OnCurve, Prime;
    PrimeEleven();
    Points();
    AtOnCurve(1); AtOnCurve(11);
    AllSums(1, 11); AllSums(1, 1);
    RealDouble(A(7, 5), 6, infinity, x3, y3, 11);
  }

  // (10, 0) has order two, and added to itself gives (2, 0), which is not on the
  // curve.
  lemma ClashExample(infinity: bool, x3: Gauss, y3: Gauss)
    requires FiniteSum(G(10, 0), G(0, 0), G(10, 0), G(0, 0), infinity, x3, y3, 11)
    ensures OnCurve(A(10, 0), 11) && !infinity && x3 == G(2, 0) && y3 == ZERO && !OnCurve2(x3, y3, 11)
  {
    hide Mul, ThirdPoint, OnCurve2, Prime, FiniteSum;
    PrimeEleven();
    AtOnCurve(6);
    EmbedOnCurve(A(10, 0), 11);
    NeverO(A(10, 0), 0, infinity, x3, y3, 11);
    SumCloses(G(10, 0), ZERO, G(10, 0), ZERO, x3, y3, 11);
    MinusTwenty();
    CanonicalReal(x3, 2, 11);
  }

  lemma MinusTwenty()
    ensures Scale(-2, G(10, 0)) == G(-20, 0) && CongG(G(-20, 0), G(2, 0), 11)
  {
    CongIntro(-20, 2, -2, 11);
  }

  lemma OrderTwoEleven()
    ensures HasOrder(A(10, 0), 2, 11)
  {
    hide Plus, At, OnCurve, Associative, Times, HasOrder, Prime;
    GroupEleven();
    Points();
    AtOnCurve(6);
    AllSums(6, 6);
    TimesOne(A(10, 0), 11);
    TimesSucc(1, A(10, 0), 11);
    PrimeTwo();
    PrimeOrder(A(10, 0), 2, 11);
  }

  lemma PrimeTwo()
    ensures Prime(2)
  {
  }

  // With q = 3, general_point_mul takes this point to one off the curve for the
  // scalar 2.
  lemma ProductExample()
    ensures var P := Embed(A(10, 0)); On2(P, 11) && !On2(Product(2, P, 3, 11).at, 11)
  {
    hide Associative, HasOrder, Order2, Prime, Product, On2, Embed;
    GroupEleven();
    OrderTwoEleven();
    RealOrder(A(10, 0), 2, 11);
    OrderOf2(0, Embed(A(10, 0)), 2, 11);
    EvenProduct(Embed(A(10, 0)), 3, 2, 11);
  }

  // Modulo 11 the elements 5 + 3 i and 5 + 8 i are cube roots of unity, and the
  // first is the one that set_cbrt_unity computes.
  lemma UnityEleven()
    ensures Unity(G(5, 3), 11) && Unity(G(5, 8), 11)
    ensures Cong(IPow(-2 * 3, 5), 1, 11) && !Cong(IPow(-2 * 8, 5), 1, 11)
  {
  }

  // ----- the pairing's value -----

  // For q = 3 and P = (0, 1) the value of Miller's algorithm is Y - 1 at every
  // point of the curve over F_121.
  lemma MillerEleven(P: Pt, X: Gauss, Y: Gauss, p: Pos)
    requires p == 11 && P == A(0, 1) && OnCurve2(X, Y, p)
    ensures CongG(MillerNum(-2, 0, P, X, Y, p), Mul(Sub(Y, ONE), MillerDen(-2, 0, P, X, Y, p)), p)
  {
    hide Mul, Times, TangentSlope, Num, Den, OnCurve2, Red, Vertical;
    MultiplesOfThree(P, p);
    FlatSlopes(p);
    TwoSteps(P, A(0, 10), X, Y, p);
    FlatLine(0, 1, X, Y);
    NormOfY(X, Y, p);
    FactorsMatch(Sub(Y, ONE), Sub(Y, G(10, 0)), Mul(Mul(X, X), X), X, p);
  }

  // So the pairing of P with the point (X, Y) is (Y - 1)^t, where the denominator
  // does not vanish.
  lemma PairingEleven(P: Pt, X: Gauss, Y: Gauss, e: Gauss, t: nat, p: Pos)
    requires p == 11 && P == A(0, 1) && OnCurve2(X, Y, p) && !CongG(MillerDen(-2, 0, P, X, Y, p), ZERO, p)
    requires PowerOfRatio(e, MillerNum(-2, 0, P, X, Y, p), MillerDen(-2, 0, P, X, Y, p), t, p)
    ensures CongG(e, Pow(Sub(Y, ONE), t), p)
  {
    hide Mul, Pow, MillerNum, MillerDen, OnCurve2, CongG, Canonical;
    GroupEleven();
    MillerEleven(P, X, Y, p);
    var N, D := MillerNum(-2, 0, P, X, Y, p), MillerDen(-2, 0, P, X, Y, p);
    CongGPow(N, Mul(Sub(Y, ONE), D), t, p);
    PowMul(Sub(Y, ONE), D, t);
    PowNonZero(D, t, p);
    CongGChain(Mul(e, Pow(D, t)), Pow(N, t), Mul(Pow(Sub(Y, ONE), t), Pow(D, t)), p);
    QuotientUnique(e, Pow(Sub(Y, ONE), t), Pow(D, t), p);
  }

  lemma FactorsMatch(a: Gauss, b: Gauss, c: Gauss, x: Gauss, p: Pos)
    requires CongG(Mul(a, b), c, p)
    ensures CongG(Mul(Mul(Mul(a, a), b), x), Mul(a, Mul(c, x)), p)
  {
    hide Mul, Rem;
    MulAssoc(a, a, b);
    CongGMul(a, a, Mul(a, b), c, p);
    CongGMul(Mul(a, Mul(a, b)), Mul(a, c), x, x, p);
    MulAssoc(a, c, x);
  }

  lemma MultiplesOfThree(P: Pt, p: Pos)
    requires p == 11 && P == A(0, 1)
    ensures Times(1, P, p) == P && Times(2, P, p) == A(0, 10) && Times(4, P, p) == P
  {
    hide Plus, At, OnCurve, Associative, Times, Prime;
    GroupEleven();
    Points();
    AtOnCurve(8);
    AllSums(8, 8); AllSums(4, 8); AllSums(0, 8);
    TimesOne(P, p);
    TimesSucc(1, P, p); TimesSucc(2, P, p); TimesSucc(3, P, p);
  }

  lemma FlatSlopes(p: Pos)
    requires p == 11
    ensures TangentSlope(A(0, 1), p) == 0 && TangentSlope(A(0, 10), p) == 0
  {
    hide Inv;
    ModIntro(0, 0, 0, p);
    assert 3 * 0 * 0 * Inv(2 * 1, p) == 0 && 3 * 0 * 0 * Inv(2 * 10, p) == 0;
  }

  // Two doublings with horizontal tangents.
  lemma TwoSteps(P: Pt, T: Pt, X: Gauss, Y: Gauss, p: Pos)
    requires P.A? && T.A? && P.x == 0 && T.x == 0 && TangentSlope(P, p) == 0 && TangentSlope(T, p) == 0
    requires Times(1, P, p) == P && Times(2, P, p) == T && Times(4, P, p) == P
    ensures Num(2, P, X, Y, p) == Mul(Mul(Sub(Y, G(P.y, 0)), Sub(Y, G(P.y, 0))), Sub(Y, G(T.y, 0)))
    ensures Den(2, P, X, p) == Mul(Mul(X, X), X)
  {
    hide Mul, Times, TangentSlope;
    TwoPowers();
    hide IPow;
    FlatLine(P.x, P.y, X, Y); FlatLine(T.x, T.y, X, Y);
    MulOne(ONE); MulOne(Sub(Y, G(P.y, 0))); MulOne(X);
    FirstValues(P, X, Y, p);
    hide Num, Den, Line, Vertical;
    NumStep(0, P, X, Y, p); NumStep(1, P, X, Y, p);
  }

  lemma TwoPowers()
    ensures P2(0) == 1 && P2(1) == 2 && P2(2) == 4
  {
  }

  lemma FirstValues(P: Pt, X: Gauss, Y: Gauss, p: Pos)
    ensures Num(0, P, X, Y, p) == ONE && Den(0, P, X, p) == ONE
  {
  }

  lemma FlatLine(x: int, y: int, X: Gauss, Y: Gauss)
    ensures Line(A(x, y), 0, X, Y) == Sub(Y, G(y, 0)) && Vertical(A(0, y), X) == X
  {
  }

  // (Y - 1)(Y + 1) = X^3
  lemma NormOfY(X: Gauss, Y: Gauss, p: Pos)
    requires OnCurve2(X, Y, p) && p == 11
    ensures CongG(Mul(Sub(Y, ONE), Sub(Y, G(10, 0))), Mul(Mul(X, X), X), p)
  {
    hide Mul, Rem, Cong;
    var c, s, t := Mul(Mul(X, X), X), Mul(Y, Y), Mul(Sub(Y, ONE), Sub(Y, G(10, 0)));
    CurveParts(X, Y, p);
    ProductExpands(Y);
    CongIntro(t.a, s.a - 1, -Y.a + 1, p);
    CongIntro(t.b, s.b, -Y.b, p);
    CongSelf(1, p);
    CongAdd(s.a, c.a + 1, 1, 1, p);
    CongTrans(t.a, s.a - 1, c.a, p);
    CongTrans(t.b, s.b, c.b, p);
    PartsCong(t, c, p);
  }

  lemma ProductExpands(Y: Gauss)
    ensures Mul(Sub(Y, ONE), Sub(Y, G(10, 0))) == G(Mul(Y, Y).a - 11 * Y.a + 10, Mul(Y, Y).b - 11 * Y.b)
  {
  }

  lemma CurveParts(X: Gauss, Y: Gauss, p: Pos)
    requires OnCurve2(X, Y, p)
    ensures Cong(Mul(Y, Y).a, Mul(Mul(X, X), X).a + 1, p) && Cong(Mul(Y, Y).b, Mul(Mul(X, X), X).b, p)
  {
    hide Mul, Rem;
  }

  lemma PartsCong(t: Gauss, c: Gauss, p: Pos)
    requires Cong(t.a, c.a, p) && Cong(t.b, c.b, p)
    ensures CongG(t, c, p)
  {
    hide Rem;
  }
}
