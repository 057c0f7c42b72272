// The point formulas of curve.c on coordinates in F_p: affine doubling and
// addition, and the projective forms (x, y, z) for the point (x/z^2, y/z^3)
// that avoid inversions.
module Projective {
  import opened NumberTheory
  import opened EllipticCurve

  // (x, y, z) stands for the finite point P.
  ghost predicate Reps(x: int, y: int, z: int, P: Pt, p: Pos) {
    P.A? && !Cong(z, 0, p) && Cong(x, P.x * (z * z), p) && Cong(y, P.y * (z * z * z), p)
  }

  // ----- affine -----

  method ZzpPointDouble(px: int, py: int, p: Pos) returns (x: int, y: int)
    requires Field(p)
    ensures !Cong(py, 0, p) ==> A(x, y) == Third(A(px, py), px, TangentSlope(A(px, py), p), p)
  {
    var lambda := px + px;
    lambda := lambda + px;
    lambda := lambda * px;
    lambda := Rem(lambda, p);
    var temp := py + py;
    var ok, inv := MpzInvert(temp, p);
    lambda := lambda * inv;
    lambda := Rem(lambda, p);
    x := lambda * lambda;
    x := x - px;
    x := x - px;
    x := Rem(x, p);
    y := px - x;
    y := y * lambda;
    y := y - py;
    y := Rem(y, p);
    if !Cong(py, 0, p) {
      DoubleSlope(px, py, ok, inv, p);
      ThirdCommuted(A(px, py), px, lambda, x, p);
    }
  }

  method ZzpPointAdd(px: int, py: int, qx: int, qy: int, p: Pos) returns (x: int, y: int)
    requires Field(p)
    ensures !Cong(qx - px, 0, p) ==> A(x, y) == Third(A(px, py), qx, ChordSlope(A(px, py), A(qx, qy), p), p)
  {
    var lambda := qy - py;
    var temp := qx - px;
    var ok, inv := MpzInvert(temp, p);
    lambda := lambda * inv;
    lambda := Rem(lambda, p);
    x := lambda * lambda;
    x := x - px;
    x := x - qx;
    x := Rem(x, p);
    y := px - x;
    y := y * lambda;
    y := y - py;
    y := Rem(y, p);
    if !Cong(qx - px, 0, p) {
      PrimeInvertible(temp, p);
      InvIsInverse(temp, inv, p);
      ThirdCommuted(A(px, py), qx, lambda, x, p);
    }
  }

  lemma ThirdCommuted(P: Pt, x2: int, l: int, x3: int, p: Pos)
    requires P.A? && x3 == Rem(l * l - P.x - x2, p)
    ensures Third(P, x2, l, p) == A(x3, Rem((P.x - x3) * l - P.y, p))
  {
    assert l * (P.x - x3) == (P.x - x3) * l;
  }

  lemma InvIsInverse(a: int, u: int, p: Pos)
    requires Prime(p) && IsInverse(a, u, p) && !Cong(a, 0, p)
    ensures u == Inv(a, p)
  {
    InvCorrect(a, p);
    InverseUnique(a, u, Inv(a, p), p);
    CongSmall(u, Inv(a, p), p);
  }

  lemma DoubleSlope(px: int, py: int, ok: bool, inv: int, p: Pos)
    requires Field(p) && !Cong(py, 0, p)
    requires ok <==> Invertible(py + py, p)
    requires ok ==> IsInverse(py + py, inv, p)
    ensures Rem(Rem((px + px + px) * px, p) * inv, p) == TangentSlope(A(px, py), p)
  {
    TwoUnit(py, p);
    PrimeInvertible(2 * py, p);
    InvIsInverse(2 * py, inv, p);
    CongMod((px + px + px) * px, p);
    assert (px + px + px) * px == 3 * px * px;
    CongMul(Rem((px + px + px) * px, p), 3 * px * px, inv, inv, p);
  }

  // ----- projective doubling -----

  // Doubling a representation of P represents 2 P, unless P has order two, when
  // the z coordinate becomes a multiple of p.
  method ProjDouble(x0: int, y0: int, z0: int, p: Pos) returns (x: int, y: int, z: int)
    requires Field(p)
    ensures forall P :: OnCurve(P, p) && Reps(x0, y0, z0, P, p) ==>
              if P.y == 0 then Cong(z, 0, p) else Reps(x, y, z, Plus(P, P, p), p)
    ensures Cong(z0, 0, p) ==> Cong(z, 0, p)
  {
    x, y, z := x0, y0, z0;
    var t1 := x * x;
    var t2 := t1 + t1;
    t1 := t1 + t2;
    t1 := Rem(t1, p);
    z := z * y;
    z := z + z;
    z := Rem(z, p);
    var t5 := y * y;
    t5 := Rem(t5, p);
    t2 := t5 * x;
    t2 := t2 * 4;
    t2 := Rem(t2, p);
    var t3 := t1 * t1;
    var t4 := t2 + t2;
    x := t3 - t4;
    x := Rem(x, p);
    t3 := t5 * t5;
    t3 := t3 * 8;
    t3 := Rem(t3, p);
    t4 := t2 - x;
    t4 := t4 * t1;
    y := t4 - t3;
    y := Rem(y, p);
    if Cong(z0, 0, p) { LostDenominator(z0, y0 + y0, z, p) by { assert z0 * y0 + z0 * y0 == z0 * (y0 + y0); } }
    forall P | OnCurve(P, p) && Reps(x0, y0, z0, P, p)
      ensures if P.y == 0 then Cong(z, 0, p) else Reps(x, y, z, Plus(P, P, p), p)
    {
      DoubleTerms(x0, y0, z0, P, t1, t2, t3, t5, z, p);
      CongMod(t1 * t1 - (t2 + t2), p); CongMod((t2 - x) * t1 - t3, p);
      DoubleCombine(P, z0, t1, t2, t3, x, y, z, p);
    }
  }

  // A denominator that has become zero stays zero.
  lemma LostDenominator(z0: int, f: int, z: int, p: Pos)
    requires Cong(z0, 0, p) && z == Rem(z0 * f, p)
    ensures Cong(z, 0, p)
  {
    CongMod(z0 * f, p);
    CongMul(z0, 0, f, f, p);
  }

  // The intermediate values are 3 X^2, P.x z^2 and P.y z^3 for the new z.
  lemma DoubleTerms(x0: int, y0: int, z0: int, P: Pt, t1: int, t2: int, t3: int, t5: int, z: int, p: Pos)
    requires Reps(x0, y0, z0, P, p)
    requires t1 == Rem(x0 * x0 + (x0 * x0 + x0 * x0), p) && t5 == Rem(y0 * y0, p)
    requires t2 == Rem(t5 * x0 * 4, p) && t3 == Rem(t5 * t5 * 8, p) && z == Rem(z0 * y0 + z0 * y0, p)
    ensures var w := 2 * P.y * (z0 * z0 * (z0 * z0));
            Cong(z, w, p) && Cong(t1, 3 * P.x * P.x * (z0 * z0 * (z0 * z0)), p) &&
            Cong(t2, P.x * (w * w), p) && Cong(t3, P.y * (w * w * w), p)
  {
    var X, Y := P.x * (z0 * z0), P.y * (z0 * z0 * z0);
    RemCong(x0 * x0 + (x0 * x0 + x0 * x0), t1, p); RemCong(y0 * y0, t5, p);
    RemCong(t5 * x0 * 4, t2, p); RemCong(t5 * t5 * 8, t3, p); RemCong(z0 * y0 + z0 * y0, z, p);
    DoublePowers(P.x, P.y, z0);
    hide Rem;
    CongMul(x0, X, x0, X, p);
    CongAdd(x0 * x0, X * X, x0 * x0, X * X, p);
    CongAdd(x0 * x0, X * X, x0 * x0 + x0 * x0, X * X + X * X, p);
    CongMul(y0, Y, y0, Y, p);
    CongMul(t5, Y * Y, x0, X, p);
    CongMul(t5 * x0, Y * Y * X, 4, 4, p);
    CongMul(t5, Y * Y, t5, Y * Y, p);
    CongMul(t5 * t5, (Y * Y) * (Y * Y), 8, 8, p);
    CongMul(z0, z0, y0, Y, p);
    CongAdd(z0 * y0, z0 * Y, z0 * y0, z0 * Y, p);
  }

  lemma DoublePowers(x: int, y: int, z: int)
    ensures var X, Y, w := x * (z * z), y * (z * z * z), 2 * y * (z * z * (z * z));
            && X * X + (X * X + X * X) == 3 * x * x * (z * z * (z * z))
            && Y * Y * X * 4 == x * (w * w)
            && (Y * Y) * (Y * Y) * 8 == y * (w * w * w)
            && z * Y + z * Y == w
  {
    var u := z * z;
    var X, Y := x * u, y * (u * z);
    assert X * X == x * x * (u * u) by { ProductSquare(x, u); }
    assert z * (y * (u * z)) == y * (u * u) by { assert z * (y * (u * z)) == y * (u * (z * z)); }
    ProductSquare(y, u * z);
    ProductSquare(u, z);
    assert Y * Y == (y * y) * ((u * u) * u);
    TripleIdentity(x, y, u, u * u, y * y, Y * Y);
  }

  lemma ProductSquare(a: int, b: int)
    ensures (a * b) * (a * b) == (a * a) * (b * b)
  {
  }

  lemma TripleIdentity(x: int, y: int, u: int, a: int, s: int, n: int)
    requires n == s * (a * u) && a == u * u && s == y * y
    ensures n * (x * u) * 4 == x * ((2 * y * a) * (2 * y * a))
    ensures n * n * 8 == y * ((2 * y * a) * (2 * y * a) * (2 * y * a))
  {
    assert (2 * y * a) * (2 * y * a) == 4 * (s * (a * a)) by { ProductSquare(2 * y, a); }
    assert (a * u) * (x * u) == x * (a * a);
    assert n * (x * u) == s * ((a * u) * (x * u));
    assert (a * u) * (a * u) == (a * a) * a by { ProductSquare(a, u); }
    assert n * n == (s * s) * ((a * a) * a) by { ProductSquare(s, a * u); }
    var c := s * (a * a);
    assert (4 * c) * (2 * y * a) == 8 * (y * (c * a));
    assert y * (y * (c * a)) == s * (c * a);
    assert s * (c * a) == (s * s) * ((a * a) * a);
  }

  // With t1 = l z, t2 = P.x z^2 and t3 = P.y z^3 the new coordinates represent
  // the point on the tangent of slope l.
  lemma DoubleCombine(P: Pt, z0: int, t1: int, t2: int, t3: int, x: int, y: int, z: int, p: Pos)
    requires Field(p) && OnCurve(P, p) && P.A? && !Cong(z0, 0, p)
    requires var w := 2 * P.y * (z0 * z0 * (z0 * z0));
             Cong(z, w, p) && Cong(t1, 3 * P.x * P.x * (z0 * z0 * (z0 * z0)), p) &&
             Cong(t2, P.x * (w * w), p) && Cong(t3, P.y * (w * w * w), p)
    requires Cong(x, t1 * t1 - (t2 + t2), p) && Cong(y, (t2 - x) * t1 - t3, p)
    ensures if P.y == 0 then Cong(z, 0, p) else Reps(x, y, z, Plus(P, P, p), p)
  {
    if P.y != 0 {
      var l := TangentSlope(P, p);
      DoubleUnit(P, z0, z, p);
      TangentSlopeCorrect(P, p);
      DoubleX(P, z0, l, t1, t2, x, z, p);
      DoubleY(P, z0, l, t1, t2, t3, x, y, z, p);
    } else {
      assert 2 * P.y * (z0 * z0 * (z0 * z0)) == 0;
    }
  }

  lemma DoubleUnit(P: Pt, z0: int, z: int, p: Pos)
    requires Field(p) && OnCurve(P, p) && P.A? && P.y != 0 && !Cong(z0, 0, p)
    requires Cong(z, 2 * P.y * (z0 * z0 * (z0 * z0)), p)
    ensures !Cong(P.y, 0, p) && !Cong(z, 0, p) && Rem(P.y + P.y, p) != 0
  {
    CanonicalNonZero(P.y, p);
    TwoUnit(P.y, p);
    ModIntro(0, 0, 0, p);
    hide Rem;
    NonZeroMul(z0, z0, p);
    NonZeroMul(z0 * z0, z0 * z0, p);
    NonZeroMul(2 * P.y, z0 * z0 * (z0 * z0), p);
  }

  // x = r^2 - m with r = l z and m = (x1 + x2) z^2 is the third abscissa.
  lemma XCombine(x1: int, x2: int, l: int, z: int, r: int, m: int, x: int, x3: int, p: Pos)
    requires Cong(r, l * z, p) && Cong(m, (x1 + x2) * (z * z), p) && Cong(x, r * r - m, p)
    requires Cong(x3, l * l - x1 - x2, p)
    ensures Cong(x, x3 * (z * z), p)
  {
    hide Rem;
    CongMul(r, l * z, r, l * z, p);
    CongAdd(r * r, (l * z) * (l * z), m, (x1 + x2) * (z * z), p);
    CongMul(x3, l * l - x1 - x2, z * z, z * z, p);
    FactorSquare(l, z, x1 + x2);
  }

  lemma FactorSquare(l: int, z: int, s: int)
    ensures (l * z) * (l * z) - s * (z * z) == (l * l - s) * (z * z)
  {
    assert (l * z) * (l * z) == (l * l) * (z * z);
  }

  lemma YCombine(x1: int, y1: int, l: int, z: int, r: int, m: int, n: int, x: int, y: int, x3: int, y3: int, p: Pos)
    requires Cong(r, l * z, p) && Cong(m, x1 * (z * z), p) && Cong(n, y1 * (z * z * z), p)
    requires Cong(x, x3 * (z * z), p) && Cong(y, (m - x) * r - n, p)
    requires Cong(y3, l * (x1 - x3) - y1, p)
    ensures Cong(y, y3 * (z * z * z), p)
  {
    hide Rem;
    CongAdd(m, x1 * (z * z), x, x3 * (z * z), p);
    CongMul(m - x, x1 * (z * z) - x3 * (z * z), r, l * z, p);
    CongAdd((m - x) * r, (x1 * (z * z) - x3 * (z * z)) * (l * z), n, y1 * (z * z * z), p);
    CongMul(y3, l * (x1 - x3) - y1, z * z * z, z * z * z, p);
    FactorCube(x1, y1, l, z, x3);
  }

  lemma FactorCube(x1: int, y1: int, l: int, z: int, x3: int)
    ensures (x1 * (z * z) - x3 * (z * z)) * (l * z) - y1 * (z * z * z) == (l * (x1 - x3) - y1) * (z * z * z)
  {
    var u := z * z;
    assert x1 * u - x3 * u == (x1 - x3) * u;
    assert ((x1 - x3) * u) * (l * z) == (l * (x1 - x3)) * (u * z);
  }

  lemma SlopeTerm(P: Pt, z0: int, l: int, t1: int, z: int, p: Pos)
    requires P.A? && Cong(l * (2 * P.y), 3 * P.x * P.x, p)
    requires Cong(z, 2 * P.y * (z0 * z0 * (z0 * z0)), p) && Cong(t1, 3 * P.x * P.x * (z0 * z0 * (z0 * z0)), p)
    ensures Cong(t1, l * z, p)
  {
    hide Rem;
    var q := z0 * z0 * (z0 * z0);
    CongMul(l * (2 * P.y), 3 * P.x * P.x, q, q, p);
    CongMul(l, l, z, 2 * P.y * q, p);
    assert l * (2 * P.y) * q == l * (2 * P.y * q);
  }

  lemma DoubleX(P: Pt, z0: int, l: int, t1: int, t2: int, x: int, z: int, p: Pos)
    requires P.A? && Cong(l * (2 * P.y), 3 * P.x * P.x, p)
    requires var w := 2 * P.y * (z0 * z0 * (z0 * z0));
             Cong(z, w, p) && Cong(t1, 3 * P.x * P.x * (z0 * z0 * (z0 * z0)), p) && Cong(t2, P.x * (w * w), p)
    requires Cong(x, t1 * t1 - (t2 + t2), p)
    ensures Cong(t1, l * z, p) && Cong(t2, P.x * (z * z), p)
    ensures Cong(x, Rem(l * l - P.x - P.x, p) * (z * z), p)
  {
    hide Rem;
    var w := 2 * P.y * (z0 * z0 * (z0 * z0));
    SlopeTerm(P, z0, l, t1, z, p);
    CongMul(z, w, z, w, p);
    CongMul(P.x, P.x, z * z, w * w, p);
    CongAdd(t2, P.x * (z * z), t2, P.x * (z * z), p);
    assert P.x * (z * z) + P.x * (z * z) == (P.x + P.x) * (z * z);
    RemCong(l * l - P.x - P.x, Rem(l * l - P.x - P.x, p), p);
    XCombine(P.x, P.x, l, z, t1, t2 + t2, x, Rem(l * l - P.x - P.x, p), p);
  }

  lemma DoubleY(P: Pt, z0: int, l: int, t1: int, t2: int, t3: int, x: int, y: int, z: int, p: Pos)
    requires P.A? && Cong(l * (2 * P.y), 3 * P.x * P.x, p)
    requires var w := 2 * P.y * (z0 * z0 * (z0 * z0)); Cong(z, w, p) && Cong(t3, P.y * (w * w * w), p)
    requires Cong(t1, l * z, p) && Cong(t2, P.x * (z * z), p)
    requires Cong(y, (t2 - x) * t1 - t3, p) && Cong(x, Rem(l * l - P.x - P.x, p) * (z * z), p)
    ensures var x3 := Rem(l * l - P.x - P.x, p);
            Cong(y, Rem(l * (P.x - x3) - P.y, p) * (z * z * z), p)
  {
    hide Rem;
    var w := 2 * P.y * (z0 * z0 * (z0 * z0));
    var x3 := Rem(l * l - P.x - P.x, p);
    var y3 := Rem(l * (P.x - x3) - P.y, p);
    CongMul(z, w, z, w, p);
    CongMul(z * z, w * w, z, w, p);
    CongMul(P.y, P.y, z * z * z, w * w * w, p);
    RemCong(l * (P.x - x3) - P.y, y3, p);
    YCombine(P.x, P.y, l, z, t1, t2, t3, x, y, x3, y3, p);
  }

  // ----- mixed addition -----

  // Adding the affine point (a, b) to a representation of P represents their
  // sum, unless the two abscissas agree, when z becomes a multiple of p.
  method ProjMixIn(x0: int, y0: int, z0: int, a: int, b: int, p: Pos) returns (x: int, y: int, z: int)
    requires Field(p)
    ensures forall P, Q ::
              OnCurve(P, p) && Reps(x0, y0, z0, P, p) && OnCurve(Q, p) && Q.A? && a == Q.x && Cong(b, Q.y, p) ==>
              if P.x == Q.x then Cong(z, 0, p) else Reps(x, y, z, Plus(P, Q, p), p)
    ensures Cong(z0, 0, p) ==> Cong(z, 0, p)
    ensures 0 <= x < p && 0 <= y < p && 0 <= z < p
  {
    x, y, z := x0, y0, z0;
    var t8 := z * z;
    t8 := Rem(t8, p);
    var t2 := t8 * a;
    t2 := Rem(t2, p);
    ghost var z2, s2 := t8, t2;
    var t3 := x - t2;
    var t5 := t8 * z;
    t5 := Rem(t5, p);
    ghost var z3 := t5;
    t5 := t5 * b;
    t5 := Rem(t5, p);
    ghost var s5 := t5;
    var t6 := y - t5;
    var t7 := x + t2;
    t8 := y + t5;
    z := z * t3;
    z := Rem(z, p);
    t5 := t6 * t6;
    t2 := t3 * t3;
    t2 := Rem(t2, p);
    ghost var d2, sum, n8 := t2, t7, t8;
    x := t2 * t7;
    x := t5 - x;
    x := Rem(x, p);
    t5 := t7 * t2;
    t7 := x + x;
    t5 := t5 - t7;
    t5 := Rem(t5, p);
    t7 := t5 * t6;
    t8 := t8 * t2;
    t8 := Rem(t8, p);
    t8 := t8 * t3;
    y := t7 - t8;
    y := Rem(y, p);
    ghost var twice := y;
    if y % 2 == 1 {
      y := y + p;
    }
    y := y / 2;
    Halve(twice, y, p);
    if Cong(z0, 0, p) { LostDenominator(z0, t3, z, p); }
    forall P, Q | OnCurve(P, p) && Reps(x0, y0, z0, P, p) && OnCurve(Q, p) && Q.A? && a == Q.x && Cong(b, Q.y, p)
      ensures if P.x == Q.x then Cong(z, 0, p) else Reps(x, y, z, Plus(P, Q, p), p)
    {
      MixTerms(x0, y0, z0, b, P, Q, z2, s2, z3, s5, p);
      CongMod(z0 * t3, p); CongMod(t3 * t3, p); CongMod(t6 * t6 - d2 * sum, p);
      CongMod(sum * d2 - (x + x), p); CongMod(n8 * d2, p); CongMod(t5 * t6 - t8, p);
      MixCombine(P, Q, z0, t3, t6, sum, n8, d2, t5, t8, x, y, z, p);
    }
  }

  // Adding p to an odd y and shifting halves it modulo p, within {0, ..., p-1}.
  lemma Halve(twice: int, y: int, p: Pos)
    requires Field(p) && 0 <= twice < p && y == (if twice % 2 == 1 then twice + p else twice) / 2
    ensures 0 <= y < p && Cong(2 * y, twice, p)
  {
    PrimeOdd(p);
    CongIntro(2 * y, twice, if twice % 2 == 1 then 1 else 0, p);
  }

  lemma MixTerms(x0: int, y0: int, z0: int, b: int, P: Pt, Q: Pt, z2: int, s2: int, z3: int, s5: int, p: Pos)
    requires Reps(x0, y0, z0, P, p) && Q.A? && Cong(b, Q.y, p)
    requires z2 == Rem(z0 * z0, p) && s2 == Rem(z2 * Q.x, p) && z3 == Rem(z2 * z0, p) && s5 == Rem(z3 * b, p)
    ensures Cong(x0 - s2, (P.x - Q.x) * (z0 * z0), p) && Cong(x0 + s2, (P.x + Q.x) * (z0 * z0), p)
    ensures Cong(y0 - s5, (P.y - Q.y) * (z0 * z0 * z0), p) && Cong(y0 + s5, (P.y + Q.y) * (z0 * z0 * z0), p)
  {
    RemCong(z0 * z0, z2, p); RemCong(z2 * Q.x, s2, p); RemCong(z2 * z0, z3, p); RemCong(z3 * b, s5, p);
    hide Rem;
    var u, v := z0 * z0, z0 * z0 * z0;
    CongMul(z2, u, Q.x, Q.x, p);
    CongMul(z2, u, z0, z0, p);
    CongMul(z3, v, b, Q.y, p);
    assert u * Q.x == Q.x * u && v * Q.y == Q.y * v;
    CongAdd(x0, P.x * u, s2, Q.x * u, p);
    CongAdd(y0, P.y * v, s5, Q.y * v, p);
    Distribute(P.x, Q.x, u); Distribute(P.y, Q.y, v);
  }

  lemma Distribute(a: int, b: int, c: int)
    ensures a * c - b * c == (a - b) * c && a * c + b * c == (a + b) * c
  {
  }

  lemma MixCombine(P: Pt, Q: Pt, z0: int, t3: int, t6: int, sum: int, n8: int, d2: int, t5: int, t8: int,
                   x: int, y: int, z: int, p: Pos)
    requires Field(p) && OnCurve(P, p) && OnCurve(Q, p) && P.A? && Q.A? && !Cong(z0, 0, p)
    requires Cong(t3, (P.x - Q.x) * (z0 * z0), p) && Cong(sum, (P.x + Q.x) * (z0 * z0), p)
    requires Cong(t6, (P.y - Q.y) * (z0 * z0 * z0), p) && Cong(n8, (P.y + Q.y) * (z0 * z0 * z0), p)
    requires Cong(z, z0 * t3, p) && Cong(d2, t3 * t3, p) && Cong(x, t6 * t6 - d2 * sum, p)
    requires Cong(t5, sum * d2 - (x + x), p) && Cong(2 * y, t5 * t6 - t8, p)
    requires exists m :: Cong(m, n8 * d2, p) && t8 == m * t3
    ensures if P.x == Q.x then Cong(z, 0, p) else Reps(x, y, z, Plus(P, Q, p), p)
  {
    MixZ(P.x - Q.x, z0, t3, d2, z, p);
    if P.x != Q.x {
      var l := ChordSlope(P, Q, p);
      ChordSlopeCorrect(P, Q, p);
      DistinctNotCong(P.x, Q.x, p);
      MixUnit(P.x - Q.x, z0, z, p);
      MixX(P, Q, z0, l, t6, sum, d2, x, z, p);
      MixT8(P.x - Q.x, P.y + Q.y, z0, t3, n8, d2, t8, z, p);
      MixY(P, Q, l, t5, t6, t8, sum, d2, x, y, z, p);
    } else {
      assert (P.x - Q.x) * (z0 * z0 * z0) == 0;
    }
  }

  // z = D z0^3 and d2 z0^2 = z^2 for D the difference of the abscissas.
  lemma MixZ(d: int, z0: int, t3: int, d2: int, z: int, p: Pos)
    requires Cong(t3, d * (z0 * z0), p) && Cong(z, z0 * t3, p) && Cong(d2, t3 * t3, p)
    ensures Cong(z, d * (z0 * z0 * z0), p) && Cong(d2 * (z0 * z0), z * z, p)
  {
    hide Rem;
    var u := z0 * z0;
    CongMul(z0, z0, t3, d * u, p);
    assert z0 * (d * u) == d * (u * z0);
    CongMul(z, z0 * t3, z, z0 * t3, p);
    CongMul(d2, t3 * t3, u, u, p);
    ProductSquare(z0, t3);
  }

  lemma MixUnit(d: int, z0: int, z: int, p: Pos)
    requires Prime(p) && !Cong(d, 0, p) && !Cong(z0, 0, p) && Cong(z, d * (z0 * z0 * z0), p)
    ensures !Cong(z, 0, p)
  {
    NonZeroMul(z0, z0, p);
    NonZeroMul(z0 * z0, z0, p);
    NonZeroMul(d, z0 * z0 * z0, p);
  }

  lemma MixX(P: Pt, Q: Pt, z0: int, l: int, t6: int, sum: int, d2: int, x: int, z: int, p: Pos)
    requires P.A? && Q.A? && Cong(l * (Q.x - P.x), Q.y - P.y, p)
    requires Cong(z, (P.x - Q.x) * (z0 * z0 * z0), p) && Cong(d2 * (z0 * z0), z * z, p)
    requires Cong(t6, (P.y - Q.y) * (z0 * z0 * z0), p) && Cong(sum, (P.x + Q.x) * (z0 * z0), p)
    requires Cong(x, t6 * t6 - d2 * sum, p)
    ensures Cong(t6, l * z, p) && Cong(d2 * sum, (P.x + Q.x) * (z * z), p)
    ensures Cong(x, Rem(l * l - P.x - Q.x, p) * (z * z), p)
  {
    hide Rem;
    var v := z0 * z0 * z0;
    CongMul(l, l, z, (P.x - Q.x) * v, p);
    CongMul(l * (Q.x - P.x), Q.y - P.y, -v, -v, p);
    SignSwap(l, P.x, Q.x, v); SignSwap(1, P.y, Q.y, v);
    CongMul(sum, (P.x + Q.x) * (z0 * z0), d2, d2, p);
    CongMul(P.x + Q.x, P.x + Q.x, d2 * (z0 * z0), z * z, p);
    assert (P.x + Q.x) * (z0 * z0) * d2 == (P.x + Q.x) * (d2 * (z0 * z0)) && sum * d2 == d2 * sum;
    RemCong(l * l - P.x - Q.x, Rem(l * l - P.x - Q.x, p), p);
    XCombine(P.x, Q.x, l, z, t6, d2 * sum, x, Rem(l * l - P.x - Q.x, p), p);
  }

  lemma SignSwap(l: int, a: int, b: int, v: int)
    ensures l * (b - a) * -v == l * ((a - b) * v)
  {
    assert (b - a) * -v == (a - b) * v;
    assert l * (b - a) * -v == l * ((b - a) * -v);
  }

  lemma MixT8(d: int, s: int, z0: int, t3: int, n8: int, d2: int, t8: int, z: int, p: Pos)
    requires Cong(t3, d * (z0 * z0), p) && Cong(n8, s * (z0 * z0 * z0), p)
    requires Cong(z, d * (z0 * z0 * z0), p) && Cong(d2 * (z0 * z0), z * z, p)
    requires exists m :: Cong(m, n8 * d2, p) && t8 == m * t3
    ensures Cong(t8, s * (z * z * z), p)
  {
    hide Rem;
    var m :| Cong(m, n8 * d2, p) && t8 == m * t3;
    var u, v := z0 * z0, z0 * z0 * z0;
    CongMul(n8, s * v, d2, d2, p);
    CongMul(m, s * v * d2, t3, d * u, p);
    assert (s * v * d2) * (d * u) == s * ((d2 * u) * (d * v)) by { MixRegroup(s, v, d2, d, u); }
    CongMul(d2 * u, z * z, d * v, z, p);
    CongMul(s, s, (d2 * u) * (d * v), z * z * z, p);
  }

  lemma MixRegroup(s: int, v: int, d2: int, d: int, u: int)
    ensures (s * v * d2) * (d * u) == s * ((d2 * u) * (d * v))
  {
    assert (s * v * d2) * (d * u) == s * ((v * d2) * (d * u));
    assert (v * d2) * (d * u) == (d2 * u) * (d * v);
  }

  lemma MixY(P: Pt, Q: Pt, l: int, t5: int, t6: int, t8: int, sum: int, d2: int, x: int, y: int, z: int, p: Pos)
    requires Field(p) && P.A? && Q.A? && Cong(l * (Q.x - P.x), Q.y - P.y, p)
    requires Cong(t6, l * z, p) && Cong(d2 * sum, (P.x + Q.x) * (z * z), p)
    requires Cong(x, Rem(l * l - P.x - Q.x, p) * (z * z), p) && Cong(t8, (P.y + Q.y) * (z * z * z), p)
    requires Cong(t5, sum * d2 - (x + x), p) && Cong(2 * y, t5 * t6 - t8, p)
    ensures var x3 := Rem(l * l - P.x - Q.x, p);
            Cong(y, Rem(l * (P.x - x3) - P.y, p) * (z * z * z), p)
  {
    hide Rem;
    var x3 := Rem(l * l - P.x - Q.x, p);
    var y3 := Rem(l * (P.x - x3) - P.y, p);
    var v := z * z * z;
    var s := l * (P.x + Q.x - 2 * x3) - (P.y + Q.y);
    MixTwiceY(P.x, P.y, Q.x, Q.y, l, t5, t6, t8, sum * d2, x, x3, z, p) by { assert sum * d2 == d2 * sum; }
    TwiceY3(P, Q, l, x3, y3, p);
    CongMul(2 * y3, s, v, v, p);
    assert 2 * y3 * v == 2 * (y3 * v);
    TwoNonZero(p);
    Cancel(2, y, y3 * v, p);
  }

  lemma MixTwiceY(x1: int, y1: int, x2: int, y2: int, l: int, t5: int, t6: int, t8: int, w: int, x: int, x3: int,
                  z: int, p: Pos)
    requires Cong(t6, l * z, p) && Cong(w, (x1 + x2) * (z * z), p) && Cong(x, x3 * (z * z), p)
    requires Cong(t8, (y1 + y2) * (z * z * z), p) && Cong(t5, w - (x + x), p)
    ensures Cong(t5 * t6 - t8, (l * (x1 + x2 - 2 * x3) - (y1 + y2)) * (z * z * z), p)
  {
    hide Rem;
    var u, v := z * z, z * z * z;
    CongAdd(x, x3 * u, x, x3 * u, p);
    CongAdd(w, (x1 + x2) * u, x + x, x3 * u + x3 * u, p);
    CongMul(t5, (x1 + x2) * u - (x3 * u + x3 * u), t6, l * z, p);
    CongAdd(t5 * t6, ((x1 + x2) * u - (x3 * u + x3 * u)) * (l * z), t8, (y1 + y2) * v, p);
    FactorCube2(x1, y1, x2, y2, l, z, x3);
  }

  lemma TwoNonZero(p: Pos)
    requires Field(p)
    ensures !Cong(2, 0, p)
  {
    CanonicalNonZero(2, p);
  }

  lemma FactorCube2(x1: int, y1: int, x2: int, y2: int, l: int, z: int, x3: int)
    ensures ((x1 + x2) * (z * z) - (x3 * (z * z) + x3 * (z * z))) * (l * z) - (y1 + y2) * (z * z * z)
         == (l * (x1 + x2 - 2 * x3) - (y1 + y2)) * (z * z * z)
  {
    var u, s := z * z, x1 + x2 - 2 * x3;
    assert (x1 + x2) * u - (x3 * u + x3 * u) == s * u;
    assert (s * u) * (l * z) == (l * s) * (u * z);
  }

  // Both ends of the chord give the same ordinate.
  lemma TwiceY3(P: Pt, Q: Pt, l: int, x3: int, y3: int, p: Pos)
    requires P.A? && Q.A? && Cong(l * (Q.x - P.x), Q.y - P.y, p) && y3 == Rem(l * (P.x - x3) - P.y, p)
    ensures Cong(2 * y3, l * (P.x + Q.x - 2 * x3) - (P.y + Q.y), p)
  {
    var a, b := l * (P.x - x3) - P.y, l * (Q.x - x3) - Q.y;
    RemCong(a, y3, p);
    hide Rem;
    assert b - a == l * (Q.x - P.x) - (Q.y - P.y);
    CongAdd(l * (Q.x - P.x), Q.y - P.y, Q.y - P.y, Q.y - P.y, p);
    CongAdd(b - a, 0, a, a, p);
    CongAdd(y3, a, y3, b, p);
    assert a + b == l * (P.x + Q.x - 2 * x3) - (P.y + Q.y);
  }

  // ----- back to affine coordinates -----

  method ToAffine(x0: int, y0: int, z0: int, p: Pos) returns (x: int, y: int)
    requires Field(p)
    ensures forall P :: OnCurve(P, p) && Reps(x0, y0, z0, P, p) ==> A(x, y) == P
    ensures 0 <= x < p && 0 <= y < p
  {
    var ok, z := MpzInvert(z0, p);
    var z2 := z * z;
    z2 := Rem(z2, p);
    x := x0 * z2;
    x := Rem(x, p);
    var z3 := z2 * z;
    z3 := Rem(z3, p);
    y := y0 * z3;
    y := Rem(y, p);
    forall P | OnCurve(P, p) && Reps(x0, y0, z0, P, p) ensures A(x, y) == P {
      PrimeInvertible(z0, p);
      CongMod(z * z, p); CongMod(z2 * z, p);
      ModIntro(1, 0, 1, p);
      UnscaleBoth(x0, y0, z0, P, z, z2, z3, p);
      CongMod(x0 * z2, p); CongMod(y0 * z3, p);
      CongSmall(x, P.x, p); CongSmall(y, P.y, p);
    }
  }

  lemma UnscaleBoth(x0: int, y0: int, z0: int, P: Pt, z: int, z2: int, z3: int, p: Pos)
    requires Reps(x0, y0, z0, P, p) && Cong(z0 * z, 1, p) && Cong(z2, z * z, p) && Cong(z3, z2 * z, p)
    ensures Cong(x0 * z2, P.x, p) && Cong(y0 * z3, P.y, p)
  {
    hide Rem;
    CongMul(z0 * z, 1, z0 * z, 1, p);
    ProductSquare(z0, z);
    CongMul(z0 * z0, z0 * z0, z2, z * z, p);
    CongMul((z0 * z0) * z2, 1, z0 * z, 1, p);
    CongMul(z0 * z0 * z0, z0 * z0 * z0, z3, z2 * z, p);
    assert (z0 * z0 * z0) * (z2 * z) == ((z0 * z0) * z2) * (z0 * z);
    Unscale(x0, P.x, z0 * z0, z2, p);
    Unscale(y0, P.y, z0 * z0 * z0, z3, p);
  }

  lemma Unscale(x0: int, x: int, s: int, t: int, p: Pos)
    requires Cong(x0, x * s, p) && Cong(s * t, 1, p)
    ensures Cong(x0 * t, x, p)
  {
    hide Rem;
    CongMul(x0, x * s, t, t, p);
    CongMul(x, x, s * t, 1, p);
    assert x * s * t == x * (s * t);
  }
}
