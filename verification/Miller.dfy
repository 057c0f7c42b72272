// The value that Miller's algorithm assigns to q = 2^a +- 2^b +- 1: products of
// line functions through the multiples of P, evaluated at a point (X, Y) over
// F_p^2, as a numerator and a denominator.
module Miller {
  import opened NumberTheory
  import opened Powers
  import opened EllipticCurve
  import opened PointGroup
  import opened Fp2
  import opened Curves
  import opened FinalPower

  // ----- lines -----

  // The line of slope l through T, at (X, Y).
  function Line(T: Pt, l: int, X: Gauss, Y: Gauss): Gauss {
    if T.O? then ONE else Sub(Sub(Y, G(T.y, 0)), Scale(l, Sub(X, G(T.x, 0))))
  }

  function Vertical(T: Pt, X: Gauss): Gauss {
    if T.O? then ONE else Sub(X, G(T.x, 0))
  }

  function TangentLine(T: Pt, X: Gauss, Y: Gauss, p: Pos): Gauss {
    if T.O? then ONE else Line(T, TangentSlope(T, p), X, Y)
  }

  function ChordLine(S: Pt, T: Pt, X: Gauss, Y: Gauss, p: Pos): Gauss {
    if S.O? || T.O? then ONE else Line(S, ChordSlope(S, T, p), X, Y)
  }

  // ----- the Miller values -----

  // f_(2^i) is Num / Den.
  function Num(i: nat, P: Pt, X: Gauss, Y: Gauss, p: Pos): Gauss {
    if i == 0 then ONE
    else
      var f := Num(i - 1, P, X, Y, p);
      Mul(Mul(f, f), TangentLine(Times(P2(i - 1), P, p), X, Y, p))
  }

  function Den(i: nat, P: Pt, X: Gauss, p: Pos): Gauss {
    if i == 0 then ONE
    else
      var f := Den(i - 1, P, X, p);
      Mul(Mul(f, f), Vertical(Times(P2(i), P, p), X))
  }

  // f_(-2^n) is the inverse of f_(2^n) times the vertical through 2^n P.
  function SignedNum(b: int, P: Pt, X: Gauss, Y: Gauss, p: Pos): Gauss {
    if b < 0 then Den(Abs(b), P, X, p) else Num(Abs(b), P, X, Y, p)
  }

  function SignedDen(b: int, P: Pt, X: Gauss, Y: Gauss, p: Pos): Gauss {
    if b < 0 then Mul(Num(Abs(b), P, X, Y, p), Vertical(Times(P2(Abs(b)), P, p), X)) else Den(Abs(b), P, X, p)
  }

  // f_(2^|a| +- 2^|b|).
  function CombinedNum(a: int, b: int, P: Pt, X: Gauss, Y: Gauss, p: Pos): Gauss {
    var f := Num(Abs(a), P, X, Y, p);
    if b == 0 then f
    else Mul(Mul(f, SignedNum(b, P, X, Y, p)), ChordLine(Times(P2(Abs(a)), P, p), Shifted(b, P, p), X, Y, p))
  }

  function CombinedDen(a: int, b: int, P: Pt, X: Gauss, Y: Gauss, p: Pos): Gauss {
    var f := Den(Abs(a), P, X, p);
    if b == 0 then f
    else Mul(Mul(f, SignedDen(b, P, X, Y, p)), Vertical(Tail(a, b, P, p), X))
  }

  // f_q for q = SolinasValue(a, b).
  function MillerNum(a: int, b: int, P: Pt, X: Gauss, Y: Gauss, p: Pos): Gauss {
    Mul(CombinedNum(a, b, P, X, Y, p), Vertical(P, X))
  }

  function MillerDen(a: int, b: int, P: Pt, X: Gauss, Y: Gauss, p: Pos): Gauss {
    var f := CombinedDen(a, b, P, X, Y, p);
    if a < 0 then Mul(f, Vertical(P, X)) else f
  }

  // The points +-2^|b| P and 2^|a| P +- 2^|b| P.
  function Shifted(b: int, P: Pt, p: Pos): Pt {
    Times(Sign(b) * P2(Abs(b)), P, p)
  }

  function Tail(a: int, b: int, P: Pt, p: Pos): Pt {
    Times(P2(Abs(a)) + Sign(b) * P2(Abs(b)), P, p)
  }

  // ----- the pairing's value -----

  // e is the t-th power of N / D, or zero when D vanishes.
  ghost predicate PowerOfRatio(e: Gauss, N: Gauss, D: Gauss, t: nat, p: Pos) {
    && Canonical(e, p)
    && if CongG(D, ZERO, p) then e == ZERO else CongG(Mul(e, Pow(D, t)), Pow(N, t), p)
  }

  // ----- equality up to a factor from F_p -----

  ghost predicate UpTo(v: Gauss, n: Gauss, p: Pos) {
    exists c :: !Cong(c, 0, p) && CongG(v, Scale(c, n), p)
  }

  lemma UpToIntro(v: Gauss, c: int, n: Gauss, p: Pos)
    requires !Cong(c, 0, p) && CongG(v, Scale(c, n), p)
    ensures UpTo(v, n, p)
  {
  }

  lemma UpToOne(p: Pos)
    requires Prime(p)
    ensures UpTo(ONE, ONE, p)
  {
    TwoNotZero(if p > 2 then p else 3);
    OneNotZero(p);
    assert Scale(1, ONE) == ONE;
    UpToIntro(ONE, 1, ONE, p);
  }

  lemma ScaleProduct(c: int, n: Gauss, d: int, m: Gauss)
    ensures Mul(Scale(c, n), Scale(d, m)) == Scale(c * d, Mul(n, m))
  {
    MulScale(Scale(c, n), d, m); MulComm(Scale(c, n), m); MulScale(m, c, n); MulComm(m, n);
    ScaleScale(d, c, Mul(n, m));
  }

  lemma UpToMul(v: Gauss, n: Gauss, w: Gauss, m: Gauss, p: Pos)
    requires Prime(p) && UpTo(v, n, p) && UpTo(w, m, p)
    ensures UpTo(Mul(v, w), Mul(n, m), p) && UpTo(Red(Mul(v, w), p), Mul(n, m), p)
  {
    CongGRed(Mul(v, w), p);
    hide Rem, Mul, Red, Scale;
    var c :| !Cong(c, 0, p) && CongG(v, Scale(c, n), p);
    var d :| !Cong(d, 0, p) && CongG(w, Scale(d, m), p);
    CongGMul(v, Scale(c, n), w, Scale(d, m), p);
    ScaleProduct(c, n, d, m);
    NonZeroMul(c, d, p);
    UpToIntro(Mul(v, w), c * d, Mul(n, m), p);
    UpToIntro(Red(Mul(v, w), p), c * d, Mul(n, m), p);
  }

  lemma UpToCong(v: Gauss, n: Gauss, p: Pos)
    requires Prime(p) && CongG(v, n, p)
    ensures UpTo(v, n, p)
  {
    OneNotZero(p);
    assert Scale(1, n) == n;
    UpToIntro(v, 1, n, p);
  }

  // The final exponentiation cannot tell numerators and denominators from
  // their multiples by elements of F_p.
  lemma RatioUpTo(res: Gauss, v: Gauss, d: Gauss, N: Gauss, D: Gauss, k: nat, p: Pos)
    requires Prime(p) && p % 4 == 3 && k > 0 && UpTo(v, N, p) && UpTo(d, D, p) && Canonical(d, p)
    requires !CongG(d, ZERO, p) ==> CongG(Mul(res, d), v, p)
    requires d == ZERO ==> res == ZERO
    ensures (p - 1) * k >= 0 && PowerOfRatio(Red(Pow(res, (p - 1) * k), p), N, D, (p - 1) * k, p)
  {
    hide Rem, Mul, Red, Scale, Pow, Canonical, CongG, UpTo;
    var t := (p - 1) * k;
    assert t > 0;
    MultipleIsZero(k, p - 1);
    CanonicalRed(Pow(res, t), p);
    UpToZero(d, D, p);
    if CongG(D, ZERO, p) {
      ZeroIsCanonical(d, p);
      ZeroPower(t, p);
    } else {
      RatioNonZero(res, v, d, N, D, t, p);
    }
  }

  lemma UpToZero(d: Gauss, D: Gauss, p: Pos)
    requires Prime(p) && UpTo(d, D, p)
    ensures CongG(d, ZERO, p) <==> CongG(D, ZERO, p)
  {
    hide Scale;
    var e :| !Cong(e, 0, p) && CongG(d, Scale(e, D), p);
    if CongG(D, ZERO, p) { ScaleZero(e, D, p); } else { ScaleNonZero(e, D, p); }
  }

  lemma ZeroPower(t: nat, p: Pos)
    requires t > 0
    ensures Red(Pow(ZERO, t), p) == ZERO
  {
    hide Pow;
    PowOfZero(ZERO, t, p);
    CanonicalZero(Pow(ZERO, t), p);
  }

  lemma RatioNonZero(res: Gauss, v: Gauss, d: Gauss, N: Gauss, D: Gauss, t: nat, p: Pos)
    requires Prime(p) && UpTo(v, N, p) && UpTo(d, D, p) && t % (p - 1) == 0 && CongG(Mul(res, d), v, p)
    ensures CongG(Mul(Red(Pow(res, t), p), Pow(D, t)), Pow(N, t), p)
  {
    hide Rem, Mul, Red, Scale, Pow, UpTo;
    PowerUpTo(v, N, t, p);
    PowerUpTo(d, D, t, p);
    CongGRed(Pow(res, t), p);
    CongGMul(Red(Pow(res, t), p), Pow(res, t), Pow(D, t), Pow(d, t), p);
    CongGPow(Mul(res, d), v, t, p);
    PowMul(res, d, t);
  }

  lemma PowerUpTo(v: Gauss, n: Gauss, t: nat, p: Pos)
    requires Prime(p) && UpTo(v, n, p) && t % (p - 1) == 0
    ensures CongG(Pow(v, t), Pow(n, t), p)
  {
    hide Rem, Mul, Red, Scale, Pow;
    var c :| !Cong(c, 0, p) && CongG(v, Scale(c, n), p);
    CongGPow(v, Scale(c, n), t, p);
    ScalarKilled(c, n, t, p);
  }

  lemma ZeroIsCanonical(d: Gauss, p: Pos)
    requires Canonical(d, p) && CongG(d, ZERO, p)
    ensures d == ZERO
  {
    CongSmall(d.a, 0, p); CongSmall(d.b, 0, p);
  }

  lemma ScaleZero(e: int, D: Gauss, p: Pos)
    requires CongG(D, ZERO, p)
    ensures CongG(Scale(e, D), ZERO, p)
  {
    hide Rem;
    CongMul(e, e, D.a, 0, p); CongMul(e, e, D.b, 0, p);
    assert e * 0 == 0;
  }

  lemma ScaleNonZero(e: int, D: Gauss, p: Pos)
    requires Prime(p) && !Cong(e, 0, p) && !CongG(D, ZERO, p)
    ensures !CongG(Scale(e, D), ZERO, p)
  {
    hide Rem;
    if CongG(Scale(e, D), ZERO, p) { EuclidLemma(e, D.a, p); EuclidLemma(e, D.b, p); }
  }

  // The value is determined by N and D.
  lemma PowerOfRatioUnique(e: Gauss, f: Gauss, N: Gauss, D: Gauss, t: nat, p: Pos)
    requires Prime(p) && p % 4 == 3 && PowerOfRatio(e, N, D, t, p) && PowerOfRatio(f, N, D, t, p)
    ensures e == f
  {
    hide Mul, Pow;
    if !CongG(D, ZERO, p) {
      PowNonZero(D, t, p);
      QuotientUnique(e, f, Pow(D, t), p);
      CongSmall(e.a, f.a, p); CongSmall(e.b, f.b, p);
    }
  }

  // Where neither N nor D vanishes the value is a q-th root of unity.
  lemma RatioIsRootOfUnity(e: Gauss, N: Gauss, D: Gauss, k: nat, q: nat, p: Pos)
    requires Prime(p) && p % 4 == 3 && k * q == p + 1 && !CongG(N, ZERO, p) && !CongG(D, ZERO, p)
    requires (p - 1) * k >= 0 && PowerOfRatio(e, N, D, (p - 1) * k, p)
    ensures CongG(Pow(e, q), ONE, p)
  {
    hide Rem, Mul, Pow, Red;
    var t := (p - 1) * k;
    RootOfUnity(N, k, q, p);
    RootOfUnity(D, k, q, p);
    CongGPow(Mul(e, Pow(D, t)), Pow(N, t), q, p);
    PowMul(e, Pow(D, t), q);
    CongGMul(Pow(e, q), Pow(e, q), Pow(Pow(D, t), q), ONE, p);
    MulOne(Pow(e, q));
  }
}
