// point_mul_preprocess, point_mul_postprocess and point_mul: multiples of a
// point of E/F_p from signed binary digits.
module ScalarMul {
  import opened NumberTheory
  import opened Powers
  import opened Bits
  import opened Naf
  import opened EllipticCurve
  import opened PointGroup
  import opened Projective
  import opened Curves

  // ----- multiples that stay clear of the excluded points -----

  lemma HalfCancel(x: int, q: Pos)
    requires q % 2 == 1 && Cong(2 * x, 0, q)
    ensures Cong(x, 0, q)
  {
    CongIntro(q, 0, 1, q);
    var h := (q + 1) / 2;
    HalfArithmetic(x, h, q);
    hide Rem;
    Combine(x, h, 2 * x, -x, q, q);
  }

  lemma HalfArithmetic(x: int, h: int, q: int)
    requires 2 * h == q + 1
    ensures x == h * (2 * x) + -x * q
  {
    assert h * (2 * x) == (2 * h) * x;
  }

  lemma {:induction false} P2Cancel(i: nat, x: int, q: Pos)
    requires q % 2 == 1 && Cong(P2(i) * x, 0, q)
    ensures Cong(x, 0, q)
  {
    hide Rem, IPow;
    if i > 0 {
      P2Positive(i - 1);
      assert P2(i) * x == 2 * (P2(i - 1) * x);
      HalfCancel(P2(i - 1) * x, q);
      P2Cancel(i - 1, x, q);
    } else {
      P2Zero();
    }
  }

  lemma P2Zero()
    ensures P2(0) == 1
  {
  }

  // Doubling goes well exactly when the double is not O.
  lemma DoubleFinite(T: Pt, p: Pos)
    requires Field(p) && OnCurve(T, p) && Plus(T, T, p) != O
    ensures T.A? && T.y != 0 && !Cong(T.y, 0, p)
    ensures Plus(T, T, p) == Third(T, T.x, TangentSlope(T, p), p)
  {
    if T.A? {
      if Cong(T.y, 0, p) { CongAdd(T.y, 0, T.y, 0, p); ModIntro(0, 0, 0, p); }
      if T.y == 0 { ModIntro(0, 0, 0, p); }
    }
  }

  // Points that are neither equal nor opposite have different abscissas.
  lemma DifferentAbscissas(S: Pt, T: Pt, p: Pos)
    requires Field(p) && OnCurve(S, p) && OnCurve(T, p) && S.A? && T.A?
    ensures S.x != T.x <==> S != T && S != Neg(T, p)
  {
    CongMod(-T.y, p);
    if S.x == T.x && S != T {
      SameAbscissa(S, T, p);
      ModIntro(0, 0, 0, p);
      CongSub(S.y, -T.y, p);
      CongSmall(S.y, Rem(-T.y, p), p);
    }
  }

  // i P and j P can be added by the chord formula exactly when none of the
  // multiples i, j, i - j and i + j vanishes modulo the order.
  lemma ChordSafe(i: int, j: int, P: Pt, r: Pos, p: Pos)
    requires GroupLaw(p) && HasOrder(P, r, p) && !Cong(i, 0, r) && !Cong(j, 0, r)
    ensures var S, T := Times(i, P, p), Times(j, P, p);
            S.A? && T.A? && OnCurve(S, p) && OnCurve(T, p) &&
            (S.x != T.x <==> !Cong(i, j, r) && !Cong(i + j, 0, r))
  {
    OrderOf(i, P, r, p); OrderOf(j, P, r, p);
    TimesOnCurve(i, P, p); TimesOnCurve(j, P, p);
    TimesEqual(i, j, P, r, p); TimesOpposite(i, j, P, r, p);
    hide Times, Cong, HasOrder;
    DifferentAbscissas(Times(i, P, p), Times(j, P, p), p);
  }

  // ----- the table of doubles -----

  ghost predicate Doubles(c: Curve, P: Pt)
    reads c.pre_x, c.pre_y
  {
    c.Valid() && forall i :: 0 <= i <= BitLen(c.q) ==> Times(P2(i), P, c.p) == A(c.pre_x[i], c.pre_y[i])
  }

  lemma DoubleStep(i: nat, P: Pt, q: Pos, p: Pos)
    requires GroupLaw(p) && HasOrder(P, q, p) && q % 2 == 1
    ensures var T := Times(P2(i), P, p);
            T.A? && OnCurve(T, p) && !Cong(T.y, 0, p) &&
            Times(P2(i + 1), P, p) == Third(T, T.x, TangentSlope(T, p), p)
  {
    hide Times, Plus, Third, TangentSlope;
    OrderOf(P2(i + 1), P, q, p);
    NotMultiple(i + 1, q);
    P2Positive(i);
    TimesTwo(P2(i), P, p);
    TimesOnCurve(P2(i), P, p);
    DoubleFinite(Times(P2(i), P, p), p);
  }

  lemma NotMultiple(i: nat, q: Pos)
    requires q % 2 == 1 && q > 1
    ensures !Cong(P2(i), 0, q)
  {
    if Cong(P2(i) * 1, 0, q) {
      P2Cancel(i, 1, q);
      ModIntro(1, 0, 1, q); ModIntro(0, 0, 0, q);
    }
  }

  method PointMulPreprocess(c: Curve, P: Point)
    requires c.Valid() && P.Special(c.p)
    requires GroupLaw(c.p) && HasOrder(P.Real(), c.q, c.p) && c.q % 2 == 1
    modifies c.pre_x, c.pre_y
    ensures Doubles(c, P.Real())
  {
    hide Times, Third, TangentSlope, IPow;
    ghost var base := P.Real();
    var m := BitLen(c.q);
    c.pre_x[0] := P.x.a;
    c.pre_y[0] := P.y.a;
    TimesOne(base, c.p);
    P2Zero();
    var i := 1;
    while i <= m
      invariant 1 <= i <= m + 1
      invariant forall k :: 0 <= k < i ==> Times(P2(k), base, c.p) == A(c.pre_x[k], c.pre_y[k])
    {
      DoubleStep(i - 1, base, c.q, c.p);
      var x, y := ZzpPointDouble(c.pre_x[i - 1], c.pre_y[i - 1], c.p);
      c.pre_x[i] := x;
      c.pre_y[i] := y;
      i := i + 1;
    }
  }

  // ----- the table walk -----

  lemma {:induction false} ShiftBound(n: nat, i: nat)
    ensures Shift(n, i) * P2(i) <= n
  {
    if i > 0 {
      ShiftBound(n, i - 1);
      P2Positive(i - 1);
      HalfBound(Shift(n, i - 1), P2(i - 1));
    }
  }

  lemma HalfBound(s: nat, u: nat)
    ensures (s / 2) * (2 * u) <= s * u
  {
    assert (s / 2) * (2 * u) == (2 * (s / 2)) * u;
    assert (2 * (s / 2)) * u <= s * u;
  }

  // The only n below q for which the walk meets equal points.
  predicate WalkFails(n: int, q: int) { n == q - 2 && q % 4 == 1 }

  lemma P2MultipleNonZero(i: nat, w: int, q: Pos)
    requires q % 2 == 1 && 0 < w < q
    ensures !Cong(P2(i) * w, 0, q)
  {
    if Cong(P2(i) * w, 0, q) { P2Cancel(i, w, q); CanonicalNonZero(w, q); }
  }

  // Above the lowest position every multiplier involved is below q.
  lemma WalkBound(u: int, k: int, sh: int, n: int, q: int, w: int)
    requires u >= 2 && n < q && q >= 7 && sh * (2 * u) <= n && k <= sh + 1 && w <= 2 * k + 1
    ensures w < q
  {
    Monotone(2 * u, k, sh + 1);
    Monotone(u, q - 1, 2 * k);
    Monotone(u - 1, 7, q);
    assert k * (2 * u) == u * (2 * k) && (sh + 1) * (2 * u) == sh * (2 * u) + 2 * u;
  }

  lemma Monotone(u: int, a: int, b: int)
    requires u >= 0
    ensures a <= b ==> u * a <= u * b
  {
  }

  // Where the walk adds +-2^i P to the multiple of P collected from the higher
  // digits, the two are neither equal nor opposite, but for one n.
  lemma NoCollision(n: nat, q: Pos, i: nat)
    requires 0 < n < q && q % 2 == 1 && q >= 7 && i < Top(n) && NafDigit(n, i) != 0
    ensures var e, d := P2(i + 1) * Rest(n, i + 1), NafDigit(n, i) * P2(i);
            && !Cong(e, 0, q) && !Cong(d, 0, q) && !Cong(e + d, 0, q)
            && (Cong(e, d, q) <==> i == 0 && WalkFails(n, q))
  {
    hide Rem, IPow, Rest, NafDigit, Shift, Top;
    var k, s, u := Rest(n, i + 1), NafDigit(n, i), P2(i);
    RestPositive(n, i + 1);
    RestStep(n, i);
    P2Positive(i);
    var v := 2 * k;
    Products(u, k, s);
    CongSub(P2(i + 1) * k, s * u, q);
    NotMultiple(i, q);
    if Cong(-u, 0, q) { CongMul(-1, -1, -u, 0, q); }
    if i == 0 {
      RestZero(n);
      P2Zero();
      LowestCollision(n, k, s, q);
    } else {
      P2Grows(0, i); P2Zero();
      RestBounds(n, i + 1); ShiftBound(n, i + 1);
      WalkBound(u, k, Shift(n, i + 1), n, q, v); WalkBound(u, k, Shift(n, i + 1), n, q, v + s);
      WalkBound(u, k, Shift(n, i + 1), n, q, v - s);
      P2MultipleNonZero(i, v, q); P2MultipleNonZero(i, v + s, q); P2MultipleNonZero(i, v - s, q);
    }
  }

  lemma Products(u: int, k: int, s: int)
    ensures (2 * u) * k == u * (2 * k) && (2 * u) * k + s * u == u * (2 * k + s) &&
            (2 * u) * k - s * u == u * (2 * k - s)
  {
  }

  lemma LowestCollision(n: nat, k: int, s: int, q: Pos)
    requires 0 < n < q && q % 2 == 1 && q >= 7 && n == s + 2 * k && k > 0 && k % 2 == 0 && (s == 1 || s == -1)
    ensures !Cong(2 * k, 0, q) && !Cong(2 * k + s, 0, q)
    ensures Cong(2 * k - s, 0, q) <==> WalkFails(n, q)
  {
    hide Rem, Cong;
    CanonicalNonZero(n, q);
    if 2 * k < q { CanonicalNonZero(2 * k, q); }
    var w := 2 * k - s;
    if w < q {
      CanonicalNonZero(w, q);
    } else if w == q {
      CongIntro(q, 0, 1, q);
    } else {
      CanonicalNonZero(w - q, q);
      CongIntro(w, w - q, 1, q);
    }
  }

  // One digit of the walk, as an equation between multiples.
  lemma WalkValue(n: nat, i: nat)
    ensures P2(i) * Rest(n, i) == P2(i + 1) * Rest(n, i + 1) + NafDigit(n, i) * P2(i)
  {
    hide Rest, NafDigit, IPow;
    RestStep(n, i);
    P2Positive(i);
    Products(P2(i), Rest(n, i + 1), NafDigit(n, i));
  }

  lemma WalkAdd(n: nat, i: nat, P: Pt, q: Pos, p: Pos)
    requires GroupLaw(p) && HasOrder(P, q, p)
    requires 0 < n < q && q % 2 == 1 && q >= 7 && i < Top(n) && NafDigit(n, i) != 0
    ensures var S, T := Times(P2(i + 1) * Rest(n, i + 1), P, p), Times(NafDigit(n, i) * P2(i), P, p);
            && S.A? && T.A? && OnCurve(S, p) && OnCurve(T, p)
            && (S.x == T.x <==> i == 0 && WalkFails(n, q))
            && Plus(S, T, p) == Times(P2(i) * Rest(n, i), P, p)
  {
    hide Rest, NafDigit, IPow, Times, Plus, Top, Rem, HasOrder, OnCurve;
    OrderOf(0, P, q, p);
    var e, d := P2(i + 1) * Rest(n, i + 1), NafDigit(n, i) * P2(i);
    NoCollision(n, q, i);
    ChordSafe(e, d, P, q, p);
    WalkValue(n, i);
    TimesAdd(e, d, P, p);
  }

  // +-2^i P as the walk takes it from the table.
  lemma SignedEntry(c: Curve, P: Pt, i: nat, d: int)
    requires GroupLaw(c.p) && OnCurve(P, c.p) && Doubles(c, P) && i <= BitLen(c.q) && (d == 1 || d == -1)
    ensures var T := Times(d * P2(i), P, c.p);
            T.A? && T.x == c.pre_x[i] && Cong(if d < 0 then c.p - c.pre_y[i] else c.pre_y[i], T.y, c.p)
  {
    hide Times, IPow, Plus, Associative;
    if d == -1 {
      NegTimes(P2(i), P, c.p);
      assert d * P2(i) == -P2(i);
      var y := c.pre_y[i];
      CongMod(-y, c.p);
      CongIntro(c.p - y, -y, 1, c.p);
    } else {
      assert d * P2(i) == P2(i);
    }
  }

  lemma StartWalk(c: Curve, n: nat, P: Pt)
    requires Doubles(c, P) && GroupLaw(c.p) && 0 < n < c.q && OnCurve(P, c.p)
    ensures Top(n) <= BitLen(n) <= BitLen(c.q) && (Top(n) == 0 ==> n == 1)
    ensures Reps(c.pre_x[Top(n)], c.pre_y[Top(n)], 1, Times(P2(Top(n)) * Rest(n, Top(n)), P, c.p), c.p)
  {
    hide Times, Plus, Associative, Rest, NafDigit, IPow, BitLen;
    BitLenMonotone(n, c.q);
    RestZero(n);
    RestPositive(n, Top(n));
    ModIntro(1, 0, 1, c.p); ModIntro(0, 0, 0, c.p);
  }

  lemma EndWalk(n: nat, P: Pt, p: Pos)
    requires GroupLaw(p) && OnCurve(P, p)
    ensures P2(0) * Rest(n, 0) == n && OnCurve(Times(n, P, p), p)
  {
    hide Times;
    P2Zero();
    RestZero(n);
    TimesOnCurve(n, P, p);
  }

  // R = n P from the table of doubles of P.  z is what the final inversion is
  // given: it is a unit, and the result right, for every n but one.
  method PointMulPostprocess(c: Curve, R: Point, n: nat, ghost P: Pt) returns (ghost z: int)
    requires c.Valid() && GroupLaw(c.p) && HasOrder(P, c.q, c.p) && c.q % 2 == 1 && c.q >= 7
    requires Doubles(c, P) && 0 < n < c.q && R.x != R.y
    modifies R, R.x, R.y
    ensures !R.infinity
    ensures Invertible(z, c.p) <==> !(n == c.q - 2 && c.q % 4 == 1)
    ensures !(n == c.q - 2 && c.q % 4 == 1) ==> R.Special(c.p) && R.Real() == Times(n, P, c.p)
  {
    hide Times, Plus, Associative, Rest, NafDigit, IPow, BitLen, Rem, OnCurve, HasOrder, Doubles;
    var m := BitLen(n);
    OrderOf(0, P, c.q, c.p);
    StartWalk(c, n, P);
    var s := Recode(n);
    ghost var digits := s[..];
    if s[m] == 0 { m := m - 1; }
    var rx, ry, rz := c.pre_x[m], c.pre_y[m], 1;
    m := m - 1;
    ghost var failed := false;
    while m >= 0
      invariant -1 <= m < Top(n) && s[..] == digits
      invariant failed <==> (m < 0 && WalkFails(n, c.q))
      invariant failed ==> Cong(rz, 0, c.p)
      invariant !failed ==> Reps(rx, ry, rz, Times(P2(m + 1) * Rest(n, m + 1), P, c.p), c.p)
    {
      rx, ry, rz, failed := WalkStep(c, s[m], n, m, rx, ry, rz, P);
      m := m - 1;
    }
    z := rz;
    EndWalk(n, P, c.p);
    PrimeInvertible(z, c.p);
    var x, y := ToAffine(rx, ry, rz, c.p);
    R.SetReal(x, y);
  }

  // One iteration: mix in the table entry that the digit selects.
  method WalkStep(c: Curve, digit: int, n: nat, m: nat, rx: int, ry: int, rz: int, ghost P: Pt)
    returns (x: int, y: int, z: int, ghost failed: bool)
    requires c.Valid() && GroupLaw(c.p) && HasOrder(P, c.q, c.p) && c.q % 2 == 1 && c.q >= 7
    requires Doubles(c, P) && 0 < n < c.q && m < Top(n) <= BitLen(c.q) && digit == NafDigit(n, m)
    requires Reps(rx, ry, rz, Times(P2(m + 1) * Rest(n, m + 1), P, c.p), c.p)
    ensures failed <==> (m == 0 && WalkFails(n, c.q))
    ensures if m == 0 && WalkFails(n, c.q) then Cong(z, 0, c.p)
            else Reps(x, y, z, Times(P2(m) * Rest(n, m), P, c.p), c.p)
  {
    hide Times, Plus, Associative, Rest, NafDigit, IPow, BitLen, Reps, Rem, OnCurve, Top;
    x, y, z := rx, ry, rz;
    failed := m == 0 && WalkFails(n, c.q);
    WalkValue(n, m);
    RestStep(n, m);
    OrderOf(0, P, c.q, c.p);
    if digit != 0 {
      WalkAdd(n, m, P, c.q, c.p);
      SignedEntry(c, P, m, digit);
      if digit < 0 {
        var y0 := c.p - c.pre_y[m];
        x, y, z := ProjMixIn(x, y, z, c.pre_x[m], y0, c.p);
      } else {
        x, y, z := ProjMixIn(x, y, z, c.pre_x[m], c.pre_y[m], c.p);
      }
    } else {
      FailingDigit(n, c.q);
    }
  }

  // The lowest digit of the failing n is not zero.
  lemma FailingDigit(n: nat, q: Pos)
    ensures q % 2 == 1 && WalkFails(n, q) ==> NafDigit(n, 0) == -1
  {
  }

  // On points of order 13 the multiplier 11 = 12 - 1 meets -P when -P is to be
  // added to 12 P.
  lemma FailingWalk()
    ensures WalkFails(11, 13) && NafDigit(11, 0) == -1 && P2(1) * Rest(11, 1) == 12 && Cong(12, -1, 13)
  {
    RestZero(11);
    RestStep(11, 0);
    P2Zero(); P2Positive(0);
    CongIntro(12, -1, 1, 13);
  }
}
