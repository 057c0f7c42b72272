// The line functions of the pairing: pts_get_vertical, pts_get_tangent,
// tate_get_vertical, tate_get_tangent and tate_get_line.  Each multiplies v by a line
// through the given points, up to a factor from F_p that saves a division.
module TateLines {
  import opened NumberTheory
  import opened Powers
  import opened EllipticCurve
  import opened Projective
  import opened Fp2
  import opened Curves
  import opened Miller

  ghost predicate Multiplied(v: Gauss, v0: Gauss, f: Gauss, p: Pos) {
    Canonical(v, p) && CongG(v, Mul(v0, f), p)
  }

  lemma MultipliedBy(v0: Gauss, t: Gauss, d: Gauss, p: Pos)
    requires CongG(t, d, p)
    ensures Multiplied(Red(Mul(v0, t), p), v0, d, p)
  {
    CanonicalRed(Mul(v0, t), p);
    CongGMul(v0, v0, t, d, p);
  }

  // ----- at a point in projective coordinates -----

  // v is multiplied by z^2 times the vertical.
  method PtsGetVertical(v: Elem, A: Point, P: Point, z: int, p: Pos, ghost T: Pt, ghost n: Gauss)
    requires Prime(p) && !A.infinity && Reps(P.x.a, P.y.a, z, T, p) && UpTo(v.Val(), n, p)
    modifies v
    ensures Multiplied(v.Val(), old(v.Val()), Scale(z * z, Vertical(T, old(A.x.Val()))), p)
    ensures UpTo(v.Val(), Mul(n, Vertical(T, old(A.x.Val()))), p)
  {
    hide Rem, Mul, Scale, Red;
    ghost var v0, X, x := v.Val(), A.x.Val(), P.x.a;
    var z2 := ZpMul(z, z, p);
    RemCong(z * z, z2, p);
    var temp := new Elem();
    temp.SetMulMpz(A.x, z2, p);
    ghost var t0 := temp.Val();
    temp.a := ZpSub(temp.a, P.x.a, p);
    VerticalForm(X, x, z, z2, T, t0, temp.Val(), p);
    ghost var f := temp.Val();
    v.SetMul(v, temp, p);
    FactorTaken(v0, n, f, z * z, Vertical(T, X), p);
  }

  lemma VerticalForm(X: Gauss, x: int, z: int, z2: int, T: Pt, t0: Gauss, t: Gauss, p: Pos)
    requires Prime(p) && T.A? && !Cong(z, 0, p) && Cong(x, T.x * (z * z), p) && Cong(z2, z * z, p)
    requires t0 == Red(Scale(z2, X), p) && t.b == t0.b && Cong(t.a, t0.a - x, p)
    ensures CongG(t, Scale(z * z, Vertical(T, X)), p) && UpTo(t, Vertical(T, X), p)
  {
    CongGRed(Scale(z2, X), p);
    hide Rem;
    CongMul(z2, z * z, X.a, X.a, p); CongMul(z2, z * z, X.b, X.b, p);
    CongAdd(t0.a, z * z * X.a, x, T.x * (z * z), p);
    VerticalScale(z * z, X, T.x);
    NonZeroMul(z, z, p);
    UpToIntro(t, z * z, Vertical(T, X), p);
  }

  lemma VerticalScale(k: int, X: Gauss, x: int)
    ensures Scale(k, Sub(X, G(x, 0))) == G(k * X.a - x * k, k * X.b)
  {
    assert k * (X.a - x) == k * X.a - x * k && k * (X.b - 0) == k * X.b;
  }

  // 2 y z^6, y the affine ordinate.
  function TangentFactor(T: Pt, z: int): int
    requires T.A?
  {
    2 * T.y * (z * z * z * (z * z * z))
  }

  lemma TangentFactorIs(T: Pt, z: int)
    requires T.A?
    ensures TangentFactor(T, z) == 2 * T.y * (z * z * z * (z * z * z))
  {
  }

  lemma RepsFinite(x: int, y: int, z: int, T: Pt, p: Pos)
    requires Reps(x, y, z, T, p)
    ensures T.A?
  {
  }

  // v is multiplied by 2 y z^6 times the tangent.
  method PtsGetTangent(v: Elem, A: Point, P: Point, z: int, p: Pos, ghost T: Pt, ghost n: Gauss)
    requires Field(p) && !A.infinity && Reps(P.x.a, P.y.a, z, T, p) && !Cong(T.y, 0, p) && UpTo(v.Val(), n, p)
    modifies v
    ensures Multiplied(v.Val(), old(v.Val()),
                       Scale(TangentFactor(T, z), TangentLine(T, old(A.x.Val()), old(A.y.Val()), p)), p)
    ensures TangentFactor(T, z) == 2 * T.y * (z * z * z * (z * z * z))
    ensures UpTo(v.Val(), Mul(n, TangentLine(T, old(A.x.Val()), old(A.y.Val()), p)), p)
  {
    hide Rem, Mul, Scale, Red, Add, Sub, Cong, CongG, TangentLine, Canonical, UpTo, Reps, Coefficients, Prime,
         TangentFactor, Multiplied;
    RepsFinite(P.x.a, P.y.a, z, T, p);
    TangentFactorIs(T, z);
    ghost var v0, X, Y, x, y := v.Val(), A.x.Val(), A.y.Val(), P.x.a, P.y.a;
    var f1 := new Elem();
    var f2 := new Elem();
    var a, b, c := TangentCoefficients(P.x.a, P.y.a, z, p);
    f1.SetMulMpz(A.x, a, p);
    f2.SetMulMpz(A.y, b, p);
    ghost var g1, g2 := f1.Val(), f2.Val();
    f1.SetAdd(f1, f2, p);
    ghost var g := f1.Val();
    f1.a := ZpAdd(f1.a, c, p);
    ghost var f := f1.Val();
    TangentForm(X, Y, x, y, z, T, a, b, c, g1, g2, g, f, p);
    v.SetMul(v, f1, p);
    FactorTaken(v0, n, f, TangentFactor(T, z), TangentLine(T, X, Y, p), p);
  }

  // Multiplying by a multiple of a line.
  lemma FactorTaken(v0: Gauss, n: Gauss, f: Gauss, k: int, l: Gauss, p: Pos)
    requires Prime(p) && UpTo(v0, n, p) && UpTo(f, l, p) && CongG(f, Scale(k, l), p)
    ensures Multiplied(Red(Mul(v0, f), p), v0, Scale(k, l), p) && UpTo(Red(Mul(v0, f), p), Mul(n, l), p)
  {
    hide Mul, Red, Scale, UpTo, Multiplied, CongG, Prime;
    UpToMul(v0, n, f, l, p);
    MultipliedBy(v0, f, Scale(k, l), p);
  }

  // a X + b Y + c is the tangent at (x / z^2, y / z^3) times 2 y z^3.
  ghost predicate Coefficients(x: int, y: int, z: int, a: int, b: int, c: int, p: Pos) {
    && Cong(a, -(3 * (x * x)) * (z * z), p) && Cong(b, 2 * y * (z * z * z), p)
    && Cong(c, 3 * (x * x) * x - 2 * (y * y), p)
  }

  method TangentCoefficients(x: int, y: int, z: int, p: Pos) returns (a: int, b: int, c: int)
    ensures Coefficients(x, y, z, a, b, c, p)
  {
    hide Rem;
    var temp2 := ZpMul(x, x, p);
    ghost var xx := temp2;
    var temp := ZpAdd(temp2, temp2, p);
    ghost var xx2 := temp;
    temp := ZpAdd(temp, temp2, p);
    a := ZpNeg(0, temp, p);
    ghost var a0 := a;
    temp2 := ZpMul(z, z, p);
    ghost var zz := temp2;
    a := ZpMul(a, temp2, p);
    temp2 := ZpMul(temp2, z, p);
    b := ZpAdd(y, y, p);
    ghost var b0 := b;
    b := ZpMul(b, temp2, p);
    SlopeCoefficient(x, z, xx, xx2, temp, a0, zz, a, p);
    CubeCoefficient(y, z, zz, temp2, b0, b, p);
    c := ZpMul(temp, x, p);
    ghost var c0 := c;
    temp2 := ZpMul(y, y, p);
    ghost var yy := temp2;
    temp2 := ZpAdd(temp2, temp2, p);
    c := ZpSub(c, temp2, p);
    ConstantCoefficient(x, y, temp, c0, yy, temp2, c, p);
  }

  lemma SlopeCoefficient(x: int, z: int, xx: int, xx2: int, temp: int, a0: int, zz: int, a: int, p: Pos)
    requires xx == Rem(x * x, p) && Cong(xx2, xx + xx, p) && Cong(temp, xx2 + xx, p)
    requires (temp != 0 ==> Cong(a0, -temp, p)) && (temp == 0 ==> a0 == 0)
    requires zz == Rem(z * z, p) && a == Rem(a0 * zz, p)
    ensures Cong(temp, 3 * (x * x), p) && Cong(a, -(3 * (x * x)) * (z * z), p)
  {
    RemCong(x * x, xx, p); RemCong(z * z, zz, p); RemCong(a0 * zz, a, p);
    hide Rem;
    CongAdd(xx, x * x, xx, x * x, p);
    CongAdd(xx2, x * x + x * x, xx, x * x, p);
    CongAdd(0, 0, temp, 3 * (x * x), p);
    CongMul(a0, -(3 * (x * x)), zz, z * z, p);
  }

  lemma CubeCoefficient(y: int, z: int, zz: int, zzz: int, b0: int, b: int, p: Pos)
    requires zz == Rem(z * z, p) && zzz == Rem(zz * z, p) && Cong(b0, y + y, p) && b == Rem(b0 * zzz, p)
    ensures Cong(b, 2 * y * (z * z * z), p)
  {
    RemCong(z * z, zz, p); RemCong(zz * z, zzz, p); RemCong(b0 * zzz, b, p);
    hide Rem;
    CongMul(zz, z * z, z, z, p);
    CongMul(b0, 2 * y, zzz, z * z * z, p);
  }

  lemma ConstantCoefficient(x: int, y: int, temp: int, c0: int, yy: int, yy2: int, c: int, p: Pos)
    requires Cong(temp, 3 * (x * x), p) && c0 == Rem(temp * x, p)
    requires yy == Rem(y * y, p) && Cong(yy2, yy + yy, p) && Cong(c, c0 - yy2, p)
    ensures Cong(c, 3 * (x * x) * x - 2 * (y * y), p)
  {
    RemCong(temp * x, c0, p); RemCong(y * y, yy, p);
    hide Rem;
    CongMul(temp, 3 * (x * x), x, x, p);
    TwiceSubtracted(3 * (x * x) * x, y * y, c0, yy, yy2, c, p);
  }

  lemma TwiceSubtracted(u: int, t: int, c0: int, yy: int, yy2: int, c: int, p: Pos)
    requires Cong(c0, u, p) && Cong(yy, t, p) && Cong(yy2, yy + yy, p) && Cong(c, c0 - yy2, p)
    ensures Cong(c, u - 2 * t, p)
  {
    hide Rem;
    CongAdd(yy, t, yy, t, p);
    CongAdd(c0, u, yy2, 2 * t, p);
  }

  // a X + b Y + c is k = 2 y z^6 times the tangent at T.
  lemma TangentForm(X: Gauss, Y: Gauss, x: int, y: int, z: int, T: Pt, a: int, b: int, c: int,
                    g1: Gauss, g2: Gauss, g: Gauss, f: Gauss, p: Pos)
    requires Field(p) && Reps(x, y, z, T, p) && !Cong(T.y, 0, p)
    requires Coefficients(x, y, z, a, b, c, p)
    requires g1 == Red(Scale(a, X), p) && g2 == Red(Scale(b, Y), p) && CongG(g, Add(g1, g2), p)
    requires f.b == g.b && Cong(f.a, g.a + c, p)
    ensures CongG(f, Scale(TangentFactor(T, z), TangentLine(T, X, Y, p)), p) && UpTo(f, TangentLine(T, X, Y, p), p)
  {
    var w, l := z * z * z, TangentSlope(T, p);
    var k := 2 * T.y * (w * w);
    TangentSlopeCorrect(T, p);
    TwoUnit(T.y, p);
    hide Rem, Red, Scale, TangentSlope;
    NonZeroMul(z, z, p); NonZeroMul(z * z, z, p); NonZeroMul(w, w, p); NonZeroMul(2 * T.y, w * w, p);
    TangentA(x, z, T, l, a, p);
    TangentB(y, z, T, b, p);
    TangentC(x, y, z, T, l, c, p);
    LinearForm(X, Y, T, l, k, a, b, c, g1, g2, g, f, p);
    UpToIntro(f, k, Line(T, l, X, Y), p);
  }

  lemma TangentA(x: int, z: int, T: Pt, l: int, a: int, p: Pos)
    requires T.A? && Cong(x, T.x * (z * z), p) && Cong(l * (2 * T.y), 3 * T.x * T.x, p)
    requires Cong(a, -(3 * (x * x)) * (z * z), p)
    ensures Cong(a, -(2 * T.y * (z * z * z * (z * z * z))) * l, p)
    ensures Cong(3 * (x * x) * (z * z), 2 * T.y * (z * z * z * (z * z * z)) * l, p)
  {
    hide Rem;
    var s, w := z * z, z * z * z;
    CongMul(x, T.x * s, x, T.x * s, p);
    CongMul(x * x, T.x * s * (T.x * s), 3 * s, 3 * s, p);
    CongMul(l * (2 * T.y), 3 * T.x * T.x, w * w, w * w, p);
    SixthPower(T.x, z);
    assert l * (2 * T.y) * (w * w) == 2 * T.y * (w * w) * l;
    assert x * x * (3 * s) == 3 * (x * x) * s;
    assert Cong(3 * (x * x) * s, 2 * T.y * (w * w) * l, p);
    CongAdd(0, 0, 3 * (x * x) * s, 2 * T.y * (w * w) * l, p);
    assert -(3 * (x * x)) * s == 0 - 3 * (x * x) * s;
    assert -(2 * T.y * (w * w)) * l == 0 - 2 * T.y * (w * w) * l;
  }

  lemma SixthPower(x: int, z: int)
    ensures (x * (z * z)) * (x * (z * z)) * (3 * (z * z)) == 3 * x * x * (z * z * z * (z * z * z))
  {
    var s := z * z;
    assert (x * s) * (x * s) == x * x * (s * s) by { ProductSquare(x, s); }
    assert s * z * (s * z) == s * s * s by { ProductSquare(s, z); }
    assert x * x * (s * s) * (3 * s) == 3 * x * x * (s * s * s);
  }

  lemma TangentB(y: int, z: int, T: Pt, b: int, p: Pos)
    requires T.A? && Cong(y, T.y * (z * z * z), p) && Cong(b, 2 * y * (z * z * z), p)
    ensures Cong(b, 2 * T.y * (z * z * z * (z * z * z)), p)
  {
    hide Rem;
    var w := z * z * z;
    CongMul(y, T.y * w, 2 * w, 2 * w, p);
    assert y * (2 * w) == 2 * y * w && T.y * w * (2 * w) == 2 * T.y * (w * w);
  }

  lemma TangentC(x: int, y: int, z: int, T: Pt, l: int, c: int, p: Pos)
    requires T.A? && Cong(x, T.x * (z * z), p) && Cong(y, T.y * (z * z * z), p)
    requires Cong(l * (2 * T.y), 3 * T.x * T.x, p) && Cong(c, 3 * (x * x) * x - 2 * (y * y), p)
    ensures Cong(c, 2 * T.y * (z * z * z * (z * z * z)) * (l * T.x - T.y), p)
  {
    TangentA(x, z, T, l, -(3 * (x * x)) * (z * z), p);
    hide Rem, Cong;
    var s, w := z * z, z * z * z;
    var k := 2 * T.y * (w * w);
    CongSelf(3 * (x * x), p);
    CongSelf(T.x, p);
    CongMul(x, T.x * s, 3 * (x * x), 3 * (x * x), p);
    CongMul(3 * (x * x) * s, k * l, T.x, T.x, p);
    Reorder(x, T.x, s);
    CongTrans(3 * (x * x) * x, 3 * (x * x) * s * T.x, k * l * T.x, p);
    CongMul(y, T.y * w, y, T.y * w, p);
    DoubleSquare(y, T.y, w, p);
    CongAdd(3 * (x * x) * x, k * l * T.x, 2 * (y * y), k * T.y, p);
    FactorOut(k, l, T.x, T.y);
    CongTrans(c, 3 * (x * x) * x - 2 * (y * y), k * (l * T.x - T.y), p);
  }

  lemma DoubleSquare(y: int, t: int, w: int, p: Pos)
    requires Cong(y * y, t * w * (t * w), p)
    ensures Cong(2 * (y * y), 2 * t * (w * w) * t, p)
  {
    hide Rem, Cong;
    CongMul(2, 2, y * y, t * w * (t * w), p) by { CongSelf(2, p); }
    ProductSquare(t, w);
    assert 2 * (t * t * (w * w)) == 2 * t * (w * w) * t;
  }

  lemma FactorOut(k: int, l: int, x: int, y: int)
    ensures k * l * x - k * y == k * (l * x - y)
  {
    assert k * l * x == k * (l * x);
  }

  lemma Reorder(x: int, t: int, s: int)
    ensures x * (3 * (x * x)) == 3 * (x * x) * x && t * s * (3 * (x * x)) == 3 * (x * x) * s * t
  {
    var c := 3 * (x * x);
    assert t * s * c == c * s * t;
  }

  lemma LinearForm(X: Gauss, Y: Gauss, T: Pt, l: int, k: int, a: int, b: int, c: int,
                   g1: Gauss, g2: Gauss, g: Gauss, f: Gauss, p: Pos)
    requires T.A? && Cong(a, -k * l, p) && Cong(b, k, p) && Cong(c, k * (l * T.x - T.y), p)
    requires g1 == Red(Scale(a, X), p) && g2 == Red(Scale(b, Y), p) && CongG(g, Add(g1, g2), p)
    requires f.b == g.b && Cong(f.a, g.a + c, p)
    ensures CongG(f, Scale(k, Line(T, l, X, Y)), p)
  {
    CongGRed(Scale(a, X), p); CongGRed(Scale(b, Y), p);
    hide Rem;
    CongMul(a, -k * l, X.a, X.a, p); CongMul(a, -k * l, X.b, X.b, p);
    CongMul(b, k, Y.a, Y.a, p); CongMul(b, k, Y.b, Y.b, p);
    CongAdd(g1.a, -k * l * X.a, g2.a, k * Y.a, p);
    CongAdd(g1.b, -k * l * X.b, g2.b, k * Y.b, p);
    CongAdd(g.a, -k * l * X.a + k * Y.a, c, k * (l * T.x - T.y), p);
    LineScale(k, l, X, Y, T.x, T.y);
  }

  lemma LineScale(k: int, l: int, X: Gauss, Y: Gauss, x: int, y: int)
    ensures Scale(k, Sub(Sub(Y, G(y, 0)), Scale(l, Sub(X, G(x, 0)))))
         == G(-k * l * X.a + k * Y.a + k * (l * x - y), -k * l * X.b + k * Y.b)
  {
    LineScale1(k, l, X.a, Y.a, x, y);
    LineScale1(k, l, X.b, Y.b, 0, 0);
  }

  lemma LineScale1(k: int, l: int, X: int, Y: int, x: int, y: int)
    ensures k * (Y - y - l * (X - x)) == -k * l * X + k * Y + k * (l * x - y)
  {
    assert l * (X - x) == l * X - l * x;
    assert k * (Y - y - (l * X - l * x)) == k * Y - k * (l * X) + k * (l * x - y);
  }

  // ----- at an affine point -----

  // The tangent and the chord with the divisor of their slope multiplied in.
  function TangentDet(x: Gauss, y: Gauss, X: Gauss, Y: Gauss): Gauss {
    Sub(Mul(Add(y, y), Sub(Y, y)), Mul(Mul(Scale(3, x), x), Sub(X, x)))
  }

  function ChordDet(x1: Gauss, y1: Gauss, x2: Gauss, y2: Gauss, X: Gauss, Y: Gauss): Gauss {
    Sub(Mul(Sub(x2, x1), Sub(Y, y1)), Mul(Sub(y2, y1), Sub(X, x1)))
  }

  method TateGetVertical(v: Elem, A: Point, P: Point, p: Pos)
    modifies v
    ensures old(A.infinity || P.infinity) ==> v.Val() == old(v.Val())
    ensures old(!A.infinity && !P.infinity) ==>
              Multiplied(v.Val(), old(v.Val()), Sub(old(A.x.Val()), old(P.x.Val())), p)
  {
    hide Rem, Mul, Red;
    if A.infinity {
      return;
    }
    if P.infinity {
      return;
    }
    MultiplyByDifference(v, A.x, P.x, p);
  }

  method MultiplyByDifference(v: Elem, X: Elem, x: Elem, p: Pos)
    modifies v
    ensures Multiplied(v.Val(), old(v.Val()), Sub(old(X.Val()), old(x.Val())), p)
  {
    hide Rem, Mul, Red, Canonical;
    ghost var v0, d := v.Val(), Sub(X.Val(), x.Val());
    var temp := new Elem();
    temp.SetSub(X, x, p);
    ghost var t := temp.Val();
    v.SetMul(v, temp, p);
    MultipliedBy(v0, t, d, p);
  }

  // Given a, b and the point (x, y), multiplies v by a (X - x) + b (Y - y).
  method MultiplyByLine(v: Elem, A: Point, a: Elem, b: Elem, x: Elem, y: Elem, p: Pos)
    requires v != a && v != b
    modifies v
    ensures old(A.infinity) ==> v.Val() == old(v.Val())
    ensures old(!A.infinity) ==>
              Multiplied(v.Val(), old(v.Val()),
                         Add(Mul(old(a.Val()), Sub(old(A.x.Val()), old(x.Val()))),
                             Mul(old(b.Val()), Sub(old(A.y.Val()), old(y.Val())))), p)
  {
    hide Rem, Mul, Red, Canonical;
    ghost var va, vb, vx, vy, X, Y, v0 := a.Val(), b.Val(), x.Val(), y.Val(), A.x.Val(), A.y.Val(), v.Val();
    var c := new Elem();
    var temp := new Elem();
    var temp2 := new Elem();
    temp.SetMul(b, y, p);
    c.SetMul(a, x, p);
    c.SetAdd(c, temp, p);
    ghost var c0 := c.Val();
    c.SetNeg(c, p);
    ghost var c1 := c.Val();
    if !A.infinity {
      temp.SetMul(a, A.x, p);
      temp2.SetMul(b, A.y, p);
      temp.SetAdd(temp, temp2, p);
      ghost var s := temp.Val();
      temp.SetAdd(temp, c, p);
      ghost var f := temp.Val();
      v.SetMul(v, temp, p);
      LineFromCode(va, vb, vx, vy, X, Y, c0, c1, s, f, p);
      MultipliedBy(v0, f, Add(Mul(va, Sub(X, vx)), Mul(vb, Sub(Y, vy))), p);
    }
  }

  lemma LineFromCode(a: Gauss, b: Gauss, x: Gauss, y: Gauss, X: Gauss, Y: Gauss,
                     c0: Gauss, c1: Gauss, s: Gauss, f: Gauss, p: Pos)
    requires CongG(c0, Add(Red(Mul(a, x), p), Red(Mul(b, y), p)), p) && CongG(c1, Sub(ZERO, c0), p)
    requires CongG(s, Add(Red(Mul(a, X), p), Red(Mul(b, Y), p)), p) && CongG(f, Add(s, c1), p)
    ensures CongG(f, Add(Mul(a, Sub(X, x)), Mul(b, Sub(Y, y))), p)
  {
    hide Rem, Mul, Red;
    SumOfProducts(a, x, b, y, p); SumOfProducts(a, X, b, Y, p);
    var m, n := Add(Mul(a, x), Mul(b, y)), Add(Mul(a, X), Mul(b, Y));
    CongGAdd(ZERO, ZERO, c0, m, p);
    CongGAdd(s, n, c1, Sub(ZERO, m), p);
    MulSub(a, X, x); MulSub(b, Y, y);
  }

  lemma SumOfProducts(a: Gauss, x: Gauss, b: Gauss, y: Gauss, p: Pos)
    ensures CongG(Add(Red(Mul(a, x), p), Red(Mul(b, y), p)), Add(Mul(a, x), Mul(b, y)), p)
  {
    CongGRed(Mul(a, x), p); CongGRed(Mul(b, y), p);
    hide Rem, Mul;
    CongGAdd(Red(Mul(a, x), p), Mul(a, x), Red(Mul(b, y), p), Mul(b, y), p);
  }

  lemma NegatedFactor(a: Gauss, t: Gauss, d: Gauss, w: Gauss, p: Pos)
    requires CongG(a, Sub(ZERO, t), p) && CongG(t, d, p)
    ensures CongG(Mul(a, w), Sub(ZERO, Mul(d, w)), p)
  {
    hide Rem, Mul;
    CongGAdd(ZERO, ZERO, t, d, p);
    CongGMul(a, Sub(ZERO, d), w, w, p);
    MulSub(w, ZERO, d); MulComm(w, d); MulComm(w, Sub(ZERO, d));
    MulZero(w);
  }

  lemma TangentFromFactors(v: Gauss, v0: Gauss, x: Gauss, y: Gauss, X: Gauss, Y: Gauss,
                           n0: Gauss, n1: Gauss, n: Gauss, a: Gauss, b: Gauss, p: Pos)
    requires CongG(n0, Add(x, x), p) && CongG(n1, Add(n0, x), p) && n == Red(Mul(n1, x), p)
    requires CongG(a, Sub(ZERO, n), p) && CongG(b, Add(y, y), p)
    requires Multiplied(v, v0, Add(Mul(a, Sub(X, x)), Mul(b, Sub(Y, y))), p)
    ensures Multiplied(v, v0, TangentDet(x, y, X, Y), p)
  {
    CongGRed(Mul(n1, x), p);
    hide Rem, Mul, Red, Canonical;
    var m, d := Mul(Scale(3, x), x), Sub(X, x);
    CongGAdd(n0, Add(x, x), x, x, p);
    assert Add(Add(x, x), x) == Scale(3, x);
    CongGMul(n1, Scale(3, x), x, x, p);
    NegatedFactor(a, n, m, d, p);
    CongGMul(b, Add(y, y), Sub(Y, y), Sub(Y, y), p);
    CongGAdd(Mul(a, d), Sub(ZERO, Mul(m, d)), Mul(b, Sub(Y, y)), Mul(Add(y, y), Sub(Y, y)), p);
    assert Add(Sub(ZERO, Mul(m, d)), Mul(Add(y, y), Sub(Y, y))) == TangentDet(x, y, X, Y);
    CongGMul(v0, v0, Add(Mul(a, d), Mul(b, Sub(Y, y))), TangentDet(x, y, X, Y), p);
  }

  lemma ChordFromFactors(v: Gauss, v0: Gauss, x1: Gauss, y1: Gauss, x2: Gauss, y2: Gauss, X: Gauss, Y: Gauss,
                         a: Gauss, b: Gauss, p: Pos)
    requires CongG(a, Sub(y1, y2), p) && CongG(b, Sub(x2, x1), p)
    requires Multiplied(v, v0, Add(Mul(a, Sub(X, x1)), Mul(b, Sub(Y, y1))), p)
    ensures Multiplied(v, v0, ChordDet(x1, y1, x2, y2, X, Y), p)
  {
    hide Rem, Mul, Red, Canonical;
    var m, d := Sub(y2, y1), Sub(X, x1);
    assert Sub(ZERO, m) == Sub(y1, y2);
    NegatedFactor(a, m, m, d, p);
    CongGMul(b, Sub(x2, x1), Sub(Y, y1), Sub(Y, y1), p);
    CongGAdd(Mul(a, d), Sub(ZERO, Mul(m, d)), Mul(b, Sub(Y, y1)), Mul(Sub(x2, x1), Sub(Y, y1)), p);
    assert Add(Sub(ZERO, Mul(m, d)), Mul(Sub(x2, x1), Sub(Y, y1))) == ChordDet(x1, y1, x2, y2, X, Y);
    CongGMul(v0, v0, Add(Mul(a, d), Mul(b, Sub(Y, y1))), ChordDet(x1, y1, x2, y2, X, Y), p);
  }

  method TateGetTangent(v: Elem, A: Point, P: Point, p: Pos)
    modifies v
    ensures old(P.infinity) ==> v.Val() == old(v.Val())
    ensures old(!P.infinity && P.y.Val() == ZERO) ==>
              Multiplied(v.Val(), old(v.Val()), Sub(old(A.x.Val()), old(P.x.Val())), p)
    ensures old(!P.infinity && P.y.Val() != ZERO && A.infinity) ==> v.Val() == old(v.Val())
    ensures old(!P.infinity && P.y.Val() != ZERO && !A.infinity) ==>
              Multiplied(v.Val(), old(v.Val()),
                         TangentDet(old(P.x.Val()), old(P.y.Val()), old(A.x.Val()), old(A.y.Val())), p)
  {
    hide Rem, Mul, Red, Canonical, Scale;
    if P.infinity {
      return;
    }
    if P.y.IsZero() {
      MultiplyByDifference(v, A.x, P.x, p);
      return;
    }
    ghost var v0, x, y, X, Y := v.Val(), P.x.Val(), P.y.Val(), A.x.Val(), A.y.Val();
    var a := new Elem();
    var b := new Elem();
    var temp := new Elem();
    temp.SetAdd(P.x, P.x, p);
    ghost var n0 := temp.Val();
    temp.SetAdd(temp, P.x, p);
    ghost var n1 := temp.Val();
    temp.SetMul(temp, P.x, p);
    ghost var n := temp.Val();
    a.SetNeg(temp, p);
    b.SetAdd(P.y, P.y, p);
    ghost var va, vb := a.Val(), b.Val();
    MultiplyByLine(v, A, a, b, P.x, P.y, p);
    if !A.infinity {
      TangentFromFactors(v.Val(), v0, x, y, X, Y, n0, n1, n, va, vb, p);
    }
  }

  // Evaluated at O the vertical at equal abscissas still uses the coordinates
  // that the object holds; everything else leaves v alone.
  method TateGetLine(v: Elem, A: Point, P: Point, Q: Point, p: Pos)
    modifies v
    ensures old(A.infinity) ==>
              if old(!P.infinity && !Q.infinity && P.x.Val() == Q.x.Val() &&
                     (P.y.Val() == G(p - Q.y.a, p - Q.y.b) || P.y.Val() == ZERO))
              then Multiplied(v.Val(), old(v.Val()), Sub(old(A.x.Val()), old(P.x.Val())), p)
              else v.Val() == old(v.Val())
    ensures old(!P.infinity && !Q.infinity && !A.infinity && P.x.Val() != Q.x.Val()) ==>
              Multiplied(v.Val(), old(v.Val()),
                         ChordDet(old(P.x.Val()), old(P.y.Val()), old(Q.x.Val()), old(Q.y.Val()),
                                  old(A.x.Val()), old(A.y.Val())), p)
    ensures old(!P.infinity && !Q.infinity && !A.infinity && P.x.Val() == Q.x.Val()) ==>
              Multiplied(v.Val(), old(v.Val()),
                         if old(P.y.Val()) == G(p - old(Q.y.a), p - old(Q.y.b)) || old(P.y.Val()) == ZERO
                         then Sub(old(A.x.Val()), old(P.x.Val()))
                         else TangentDet(old(P.x.Val()), old(P.y.Val()), old(A.x.Val()), old(A.y.Val())), p)
    ensures old(!A.infinity && (P.infinity || Q.infinity)) ==>
              if old(P.infinity && Q.infinity) then v.Val() == old(v.Val())
              else Multiplied(v.Val(), old(v.Val()),
                              Sub(old(A.x.Val()), if old(P.infinity) then old(Q.x.Val()) else old(P.x.Val())), p)
  {
    hide Rem, Mul, Red, Canonical, Scale, TangentDet, ChordDet;
    if P.infinity {
      TateGetVertical(v, A, Q, p);
      return;
    }
    if Q.infinity {
      TateGetVertical(v, A, P, p);
      return;
    }
    if P.x.Equal(Q.x) {
      var temp := new Elem();
      temp.SetNeg(Q.y, p);
      if P.y.Equal(temp) {
        MultiplyByDifference(v, A.x, P.x, p);
        return;
      }
      TateGetTangent(v, A, P, p);
      return;
    }
    ghost var v0, x1, y1, x2, y2, X, Y := v.Val(), P.x.Val(), P.y.Val(), Q.x.Val(), Q.y.Val(), A.x.Val(), A.y.Val();
    var a := new Elem();
    var b := new Elem();
    b.SetSub(Q.x, P.x, p);
    a.SetSub(P.y, Q.y, p);
    ghost var va, vb := a.Val(), b.Val();
    MultiplyByLine(v, A, a, b, P.x, P.y, p);
    if !A.infinity {
      ChordFromFactors(v.Val(), v0, x1, y1, x2, y2, X, Y, va, vb, p);
    }
  }

  // ----- over F_p the affine chord is the line up to the difference of the
  // abscissas -----

  lemma ChordIsLine(S: Pt, T: Pt, y2: Gauss, X: Gauss, Y: Gauss, p: Pos)
    requires Field(p) && S.A? && T.A? && OnCurve(S, p) && OnCurve(T, p) && S.x != T.x && CongG(y2, G(T.y, 0), p)
    ensures UpTo(ChordDet(G(S.x, 0), G(S.y, 0), G(T.x, 0), y2, X, Y), ChordLine(S, T, X, Y, p), p)
  {
    hide Rem, Red, OnCurve, ChordSlope, Mul, Scale, Sub, Add, UpTo, Prime;
    ChordSlopeCorrect(S, T, p);
    var l, k := ChordSlope(S, T, p), T.x - S.x;
    var d, u := Sub(X, G(S.x, 0)), Sub(Y, G(S.y, 0));
    SlopeNumerator(S.y, T.y, y2, l, k, p);
    SubReal(T.x, S.x);
    CongGMul(Sub(y2, G(S.y, 0)), G(l * k, 0), d, d, p);
    CongGAdd(Mul(G(k, 0), u), Mul(G(k, 0), u), Mul(Sub(y2, G(S.y, 0)), d), Mul(G(l * k, 0), d), p);
    RealFactor(u, k); MulComm(u, G(k, 0)); RealFactor(d, l * k); MulComm(d, G(l * k, 0));
    ScaleDifference(k, l, u, d);
    UpToIntro(ChordDet(G(S.x, 0), G(S.y, 0), G(T.x, 0), y2, X, Y), k, Line(S, l, X, Y), p);
  }

  lemma SubReal(a: int, b: int)
    ensures Sub(G(a, 0), G(b, 0)) == G(a - b, 0)
  {
  }

  lemma SlopeNumerator(y1: int, y2: int, v: Gauss, l: int, k: int, p: Pos)
    requires CongG(v, G(y2, 0), p) && Cong(l * k, y2 - y1, p)
    ensures CongG(Sub(v, G(y1, 0)), G(l * k, 0), p)
  {
    hide Rem;
    CongGAdd(v, G(y2, 0), G(y1, 0), G(y1, 0), p);
  }

  lemma ScaleDifference(k: int, l: int, u: Gauss, d: Gauss)
    ensures Sub(Scale(k, u), Scale(l * k, d)) == Scale(k, Sub(u, Scale(l, d)))
  {
    assert k * (u.a - l * d.a) == k * u.a - l * k * d.a;
    assert k * (u.b - l * d.b) == k * u.b - l * k * d.b;
  }
}
