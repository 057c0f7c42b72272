// tate_preprocess, miller_postprocess and tate_postprocess: the coefficients of
// the lines of Miller's algorithm are computed once for P and evaluated later.
module TateCache {
  import opened NumberTheory
  import opened Powers
  import opened Bits
  import opened EllipticCurve
  import opened PointGroup
  import opened Projective
  import opened Curves
  import opened ScalarMul
  import opened PointAddition
  import opened Miller
  import opened SolinasPoints
  import opened MillerLoop

  class MillerCache {
    const numa: array<int>
    const numc: array<int>
    const denomc: array<int>
    var denoms1: int
    var denomsb: int
    var numl1a: int
    var numl1c: int
    var denoml1c: int
    var numl2c: int

    predicate Valid(q: Pos) {
      && numa.Length == BitLen(q) && numc.Length == BitLen(q) && denomc.Length == BitLen(q)
      && numa != numc && numa != denomc && numc != denomc
    }

    constructor (c: Curve)
      ensures Valid(c.q)
      ensures fresh(numa) && fresh(numc) && fresh(denomc)
    {
      numa := new int[BitLen(c.q)];
      numc := new int[BitLen(c.q)];
      denomc := new int[BitLen(c.q)];
      denoms1, denomsb, numl1a, numl1c, denoml1c, numl2c := 0, 0, 0, 0, 0, 0;
    }
  }

  // (a, c) are the coefficients of the line a X + Y + c of slope l through T.
  ghost predicate LineCoefficients(a: int, c: int, T: Pt, l: int, p: Pos) {
    T.A? && Cong(a, -l, p) && Cong(c, l * T.x - T.y, p)
  }

  // X + c is the vertical through T.
  ghost predicate VerticalCoefficient(c: int, T: Pt, p: Pos) {
    T.A? && Cong(c, -T.x, p)
  }

  // The i-th entries: the tangent at 2^i P and the vertical at its double.
  ghost predicate Entry(i: nat, na: int, nc: int, dc: int, P: Pt, p: Pos) {
    var T := Times(P2(i), P, p);
    && T.A? && LineCoefficients(na, nc, T, TangentSlope(T, p), p)
    && VerticalCoefficient(dc, Times(P2(i + 1), P, p), p)
  }

  ghost predicate Entries(mc: MillerCache, n: nat, P: Pt, p: Pos)
    reads mc.numa, mc.numc, mc.denomc
  {
    && n <= mc.numa.Length && n <= mc.numc.Length && n <= mc.denomc.Length
    && forall i :: 0 <= i < n ==> Entry(i, mc.numa[i], mc.numc[i], mc.denomc[i], P, p)
  }

  // What tate_preprocess leaves in the cache.
  ghost predicate Holds(mc: MillerCache, c: Curve, P: Pt)
    reads c, mc, mc.numa, mc.numc, mc.denomc
  {
    && mc.Valid(c.q) && Entries(mc, Abs(c.solinasa), P, c.p)
    && (c.solinasb != 0 ==> ShiftCoefficients(mc.numl1a, mc.numl1c, mc.denoml1c, c.solinasa, c.solinasb, P, c.p))
    && (c.solinasb < 0 ==> VerticalCoefficient(mc.denomsb, Times(P2(Abs(c.solinasb)), P, c.p), c.p))
    && (c.solinasa < 0 ==> VerticalCoefficient(mc.denoms1, P, c.p))
    && VerticalCoefficient(mc.numl2c, P, c.p)
  }

  ghost predicate ShiftCoefficients(la: int, lc: int, dc: int, a: int, b: int, P: Pt, p: Pos) {
    var S, T := Times(P2(Abs(a)), P, p), Shifted(b, P, p);
    && S.A? && T.A? && LineCoefficients(la, lc, S, ChordSlope(S, T, p), p)
    && VerticalCoefficient(dc, Tail(a, b, P, p), p)
  }

  // ----- filling the cache -----

  method PreprocessVertical(mc: MillerCache, i: nat, x: int, z: int, p: Pos, ghost y: int, ghost T: Pt)
    requires i < mc.denomc.Length && Prime(p) && Reps(x, y, z, T, p)
    modifies mc.denomc
    ensures mc.denomc[..] == old(mc.denomc[..])[i := mc.denomc[i]]
    ensures VerticalCoefficient(mc.denomc[i], T, p) && T.A? && Cong(mc.denomc[i], -T.x, p)
  {
    hide Rem;
    var t0 := z * z;
    var ok, inv := MpzInvert(t0, p);
    t0 := inv;
    t0 := t0 * x;
    t0 := -t0;
    mc.denomc[i] := Rem(t0, p);
    RemCong(t0, mc.denomc[i], p);
    VerticalQuotient(x, z, inv, ok, T.x, p);
  }

  lemma UnitInverse(s: int, ok: bool, u: int, p: Pos)
    requires Prime(p) && !Cong(s, 0, p) && (ok <==> Invertible(s, p)) && (ok ==> IsInverse(s, u, p))
    ensures Cong(s * u, 1, p)
  {
    PrimeInvertible(s, p);
    ModIntro(1, 0, 1, p);
  }

  lemma VerticalQuotient(x: int, z: int, inv: int, ok: bool, t: int, p: Pos)
    requires Prime(p) && !Cong(z, 0, p) && Cong(x, t * (z * z), p)
    requires (ok <==> Invertible(z * z, p)) && (ok ==> IsInverse(z * z, inv, p))
    ensures Cong(-(inv * x), -t, p)
  {
    NonZeroMul(z, z, p);
    UnitInverse(z * z, ok, inv, p);
    hide Rem;
    CongMul(inv, inv, x, t * (z * z), p);
    CongMul(t, t, z * z * inv, 1, p);
    assert inv * (t * (z * z)) == t * (z * z * inv);
    CongAdd(0, 0, inv * x, t, p);
  }

  method PreprocessTangent(mc: MillerCache, i: nat, x: int, y: int, z: int, p: Pos, ghost T: Pt)
    requires i < mc.numa.Length && i < mc.numc.Length && mc.numa != mc.numc
    requires Field(p) && Reps(x, y, z, T, p) && !Cong(T.y, 0, p)
    modifies mc.numa, mc.numc
    ensures mc.numa[..] == old(mc.numa[..])[i := mc.numa[i]] && mc.numc[..] == old(mc.numc[..])[i := mc.numc[i]]
    ensures LineCoefficients(mc.numa[i], mc.numc[i], T, TangentSlope(T, p), p)
    ensures T.A? && Cong(mc.numa[i], -TangentSlope(T, p), p) && Cong(mc.numc[i], TangentSlope(T, p) * T.x - T.y, p)
  {
    hide Rem, Cong, TangentSlope, LineCoefficients, Reps;
    var t0 := y * 2;
    t0 := t0 * z;
    var ok, inv := MpzInvert(t0, p);
    t0 := inv;
    t0 := t0 * x;
    t0 := t0 * x;
    t0 := t0 * -3;
    mc.numa[i] := Rem(t0, p);
    t0 := z * z;
    t0 := t0 * z;
    var ok', inv' := MpzInvert(t0, p);
    t0 := inv';
    mc.numc[i] := mc.numa[i] * x;
    mc.numc[i] := mc.numc[i] * z;
    mc.numc[i] := mc.numc[i] + y;
    mc.numc[i] := -mc.numc[i];
    t0 := mc.numc[i] * t0;
    mc.numc[i] := Rem(t0, p);
    TangentEntry(x, y, z, T, ok, inv, mc.numa[i], ok', inv', mc.numc[i], p);
    LineMeans(mc.numa[i], mc.numc[i], T, TangentSlope(T, p), p);
  }

  lemma LineMeans(a: int, c: int, T: Pt, l: int, p: Pos)
    requires LineCoefficients(a, c, T, l, p)
    ensures T.A? && Cong(a, -l, p) && Cong(c, l * T.x - T.y, p)
  {
  }

  lemma TangentEntry(x: int, y: int, z: int, T: Pt, ok: bool, inv: int, na: int, ok': bool, inv': int, nc: int, p: Pos)
    requires Field(p) && Reps(x, y, z, T, p) && !Cong(T.y, 0, p)
    requires (ok <==> Invertible(y * 2 * z, p)) && (ok ==> IsInverse(y * 2 * z, inv, p))
    requires (ok' <==> Invertible(z * z * z, p)) && (ok' ==> IsInverse(z * z * z, inv', p))
    requires na == Rem(inv * x * x * -3, p) && nc == Rem(-(na * x * z + y) * inv', p)
    ensures T.A? && LineCoefficients(na, nc, T, TangentSlope(T, p), p)
  {
    RemCong(inv * x * x * -3, na, p); RemCong(-(na * x * z + y) * inv', nc, p);
    TangentSlopeCorrect(T, p);
    TwoUnit(T.y, p);
    NonZeroMul(z, z, p); NonZeroMul(z * z, z, p); NonZeroMul(z * z, z * z, p);
    NonZeroMul(2 * T.y, z * z * (z * z), p);
    UnitInverse(z * z * z, ok', inv', p);
    hide Rem;
    TangentDivisor(y, z, T, p);
    UnitInverse(y * 2 * z, ok, inv, p);
    TangentQuotient(x, y, z, T, TangentSlope(T, p), inv, p);
    NegateCong(inv * x * x * 3, TangentSlope(T, p), p);
    assert inv * x * x * -3 == -(inv * x * x * 3);
    ConstantQuotient(x, y, z, T, TangentSlope(T, p), na, inv', nc, p);
  }

  lemma NegateCong(a: int, b: int, p: Pos)
    requires Cong(a, b, p)
    ensures Cong(-a, -b, p)
  {
    hide Rem;
    CongAdd(0, 0, a, b, p);
  }

  lemma TangentDivisor(y: int, z: int, T: Pt, p: Pos)
    requires T.A? && Cong(y, T.y * (z * z * z), p) && !Cong(2 * T.y * (z * z * (z * z)), 0, p)
    ensures Cong(y * 2 * z, 2 * T.y * (z * z * (z * z)), p) && !Cong(y * 2 * z, 0, p)
  {
    hide Rem;
    CongMul(y, T.y * (z * z * z), 2 * z, 2 * z, p);
    assert y * (2 * z) == y * 2 * z;
    assert T.y * (z * z * z) * (2 * z) == 2 * T.y * (z * z * (z * z)) by { FourthPower(T.y, z); }
  }

  lemma FourthPower(y: int, z: int)
    ensures y * (z * z * z) * (2 * z) == 2 * y * (z * z * (z * z))
  {
    var s := z * z;
    assert y * (s * z) * (2 * z) == 2 * y * (s * (z * z));
  }

  // 3 x^2 / 2 y z is the slope of the tangent at the affine point.
  lemma TangentQuotient(x: int, y: int, z: int, T: Pt, l: int, inv: int, p: Pos)
    requires Prime(p) && T.A? && Cong(x, T.x * (z * z), p) && Cong(l * (2 * T.y), 3 * T.x * T.x, p)
    requires Cong(y * 2 * z, 2 * T.y * (z * z * (z * z)), p) && Cong(y * 2 * z * inv, 1, p)
    ensures Cong(inv * x * x * 3, l, p)
  {
    hide Rem;
    var s := z * z;
    var d := y * 2 * z;
    CongMul(x, T.x * s, x, T.x * s, p);
    ProductSquare(T.x, s);
    CongMul(l * (2 * T.y), 3 * T.x * T.x, s * s, s * s, p);
    CongMul(l, l, d, 2 * T.y * (s * s), p);
    assert l * (2 * T.y) * (s * s) == l * (2 * T.y * (s * s));
    CongMul(3, 3, x * x, T.x * T.x * (s * s), p);
    assert 3 * T.x * T.x * (s * s) == 3 * (T.x * T.x * (s * s));
    assert Cong(3 * (x * x), l * d, p);
    CongMul(inv, inv, 3 * (x * x), l * d, p);
    CongMul(l, l, d * inv, 1, p);
    assert inv * (l * d) == l * (d * inv);
    assert inv * (3 * (x * x)) == inv * x * x * 3;
  }

  // -(y + a x z) / z^3 is the constant term.
  lemma ConstantQuotient(x: int, y: int, z: int, T: Pt, l: int, na: int, inv: int, nc: int, p: Pos)
    requires Prime(p) && T.A? && Cong(x, T.x * (z * z), p) && Cong(y, T.y * (z * z * z), p)
    requires Cong(na, -l, p) && Cong(z * z * z * inv, 1, p) && Cong(nc, -(na * x * z + y) * inv, p)
    ensures LineCoefficients(na, nc, T, l, p)
  {
    hide Rem;
    var w := z * z * z;
    CongMul(na, -l, x, T.x * (z * z), p);
    CongMul(na * x, -l * (T.x * (z * z)), z, z, p);
    assert -l * (T.x * (z * z)) * z == -l * T.x * w by { CubeRegroup(-l, T.x, z * z, z); }
    CongAdd(na * x * z, -l * T.x * w, y, T.y * w, p);
    NegateCong(na * x * z + y, -l * T.x * w + T.y * w, p);
    ConstantFactor(l, T.x, T.y, w);
    CongMul(-(na * x * z + y), (l * T.x - T.y) * w, inv, inv, p);
    CongMul(l * T.x - T.y, l * T.x - T.y, w * inv, 1, p);
    assert (l * T.x - T.y) * w * inv == (l * T.x - T.y) * (w * inv);
  }

  lemma CubeRegroup(l: int, x: int, s: int, z: int)
    ensures l * (x * s) * z == l * x * (s * z)
  {
    assert l * (x * s) * z == l * (x * s * z);
    assert x * s * z == x * (s * z);
  }

  lemma ConstantFactor(l: int, x: int, y: int, w: int)
    ensures -(-l * x * w + y * w) == (l * x - y) * w
  {
    assert -l * x * w == -(l * x * w);
  }

  // The line through two affine points; only the real parts are read.
  method PreprocessLine(P: Point, Q: Point, p: Pos, ghost S: Pt, ghost T: Pt) returns (a: int, c: int)
    requires Field(p) && S.A? && T.A? && OnCurve(S, p) && OnCurve(T, p) && S.x != T.x
    requires P.x.a == S.x && P.y.a == S.y && Q.x.a == T.x && Cong(Q.y.a, T.y, p)
    ensures LineCoefficients(a, c, S, ChordSlope(S, T, p), p)
    ensures Cong(a, -ChordSlope(S, T, p), p) && Cong(c, ChordSlope(S, T, p) * S.x - S.y, p)
  {
    hide Rem, Cong, OnCurve, ChordSlope, LineCoefficients;
    c := Q.x.a - P.x.a;
    var ok, inv := MpzInvert(c, p);
    c := inv;
    a := P.y.a - Q.y.a;
    a := a * c;
    a := Rem(a, p);
    c := a * P.x.a;
    c := c + P.y.a;
    c := -c;
    c := Rem(c, p);
    ChordSlopeCorrect(S, T, p);
    LineEntry(S, T, Q.y.a, ok, inv, a, c, ChordSlope(S, T, p), p);
    LineMeans(a, c, S, ChordSlope(S, T, p), p);
  }

  lemma LineEntry(S: Pt, T: Pt, y2: int, ok: bool, inv: int, a: int, c: int, l: int, p: Pos)
    requires Prime(p) && S.A? && T.A? && Cong(y2, T.y, p) && !Cong(T.x - S.x, 0, p)
    requires Cong(l * (T.x - S.x), T.y - S.y, p)
    requires (ok <==> Invertible(T.x - S.x, p)) && (ok ==> IsInverse(T.x - S.x, inv, p))
    requires a == Rem((S.y - y2) * inv, p) && c == Rem(-(a * S.x + S.y), p)
    ensures LineCoefficients(a, c, S, l, p)
  {
    RemCong((S.y - y2) * inv, a, p); RemCong(-(a * S.x + S.y), c, p);
    UnitInverse(T.x - S.x, ok, inv, p);
    hide Rem;
    LineSlope(S.y, T.y, y2, T.x - S.x, inv, l, p);
    CongMul(a, -l, S.x, S.x, p);
    CongAdd(a * S.x, -l * S.x, S.y, S.y, p);
    NegateCong(a * S.x + S.y, -l * S.x + S.y, p);
    assert -(-l * S.x + S.y) == l * S.x - S.y;
  }

  lemma LineSlope(y1: int, y: int, y2: int, d: int, inv: int, l: int, p: Pos)
    requires Cong(y2, y, p) && Cong(l * d, y - y1, p) && Cong(d * inv, 1, p)
    ensures Cong((y1 - y2) * inv, -l, p)
  {
    hide Rem;
    CongAdd(y1, y1, y2, y, p);
    NegateCong(l * d, y - y1, p);
    CongMul(y1 - y2, -(l * d), inv, inv, p);
    CongMul(-l, -l, d * inv, 1, p);
    assert -(l * d) * inv == -l * (d * inv);
  }

  // ----- tate_preprocess -----

  // (Z, z) stands for 2^i P.
  ghost predicate AtDouble(i: nat, x: int, y: int, z: int, P: Pt, p: Pos) {
    Reps(x, y, z, Times(P2(i), P, p), p)
  }

  // One tangent, one doubling and one vertical.
  method PreprocessStep(mc: MillerCache, Z: Point, z0: int, i: nat, p: Pos, ghost P: Pt, ghost q: Pos) returns (z: int)
    requires GroupLaw(p) && HasOrder(P, q, p) && q % 2 == 1 && Z.x != Z.y
    requires i < mc.numa.Length && i < mc.numc.Length && i < mc.denomc.Length
    requires mc.numa != mc.numc && mc.numa != mc.denomc && mc.numc != mc.denomc
    requires Entries(mc, i, P, p) && AtDouble(i, Z.x.a, Z.y.a, z0, P, p)
    modifies mc.numa, mc.numc, mc.denomc, Z.x, Z.y
    ensures Entries(mc, i + 1, P, p) && AtDouble(i + 1, Z.x.a, Z.y.a, z, P, p)
    ensures Z.x.b == old(Z.x.b) && Z.y.b == old(Z.y.b)
  {
    hide Rem, Mul, Cong, Times, IPow, HasOrder, Associative, Prime, OnCurve, Plus, TangentSlope, Reps,
         LineCoefficients, VerticalCoefficient;
    z := z0;
    ghost var T := Times(P2(i), P, p);
    NextDouble(i, P, q, p);
    PreprocessTangent(mc, i, Z.x.a, Z.y.a, z, p, T);
    var x, y;
    x, y, z := ProjDouble(Z.x.a, Z.y.a, z, p);
    Z.x.a, Z.y.a := x, y;
    PreprocessVertical(mc, i, x, z, p, y, Plus(T, T, p));
    assert forall k :: 0 <= k < i ==> mc.numa[..][k] == old(mc.numa[..])[k] && mc.numc[..][k] == old(mc.numc[..])[k]
                                      && mc.denomc[..][k] == old(mc.denomc[..])[k];
  }

  method PreprocessRun(mc: MillerCache, Z: Point, z0: int, start: nat, end: nat, c: Curve, ghost P: Pt) returns (z: int)
    requires PairingSetting(c, P) && mc.Valid(c.q) && start <= end <= Abs(c.solinasa) && Z.x != Z.y
    requires Z.x.b == 0 && Z.y.b == 0
    requires Entries(mc, start, P, c.p) && AtDouble(start, Z.x.a, Z.y.a, z0, P, c.p)
    modifies mc.numa, mc.numc, mc.denomc, Z.x, Z.y
    ensures z == 1 && Entries(mc, end, P, c.p) && AtDouble(end, Z.x.a, Z.y.a, z, P, c.p)
    ensures var T := Times(P2(end), P, c.p); T.A? && Z.x.Val() == G(T.x, 0) && Z.y.Val() == G(T.y, 0)
  {
    hide Rem, Mul, Cong, Times, IPow, HasOrder, Associative, Prime, OnCurve, Plus, Reps, Entries, SolinasOrder,
         BitLen;
    z := z0;
    if start < end { SolinasOdd(c.solinasa, c.solinasb, c.q); }
    var i := start;
    while i < end
      invariant start <= i <= end && Z.x.b == 0 && Z.y.b == 0
      invariant Entries(mc, i, P, c.p) && AtDouble(i, Z.x.a, Z.y.a, z, P, c.p)
    {
      z := PreprocessStep(mc, Z, z, i, c.p, P, c.q);
      i := i + 1;
    }
    ghost var T := Times(P2(end), P, c.p);
    OrderOf(0, P, c.q, c.p);
    TimesOnCurve(P2(end), P, c.p);
    z := Normalise(Z, z, c.p, T);
    RepsAffine(T, c.p);
  }

  lemma PreprocessStart(mc: MillerCache, P: Pt, p: Pos)
    requires Field(p) && P.A?
    ensures AtDouble(0, P.x, P.y, 1, P, p) && Entries(mc, 0, P, p)
  {
    P2Zero();
    TimesOne(P, p);
    RepsAffine(P, p);
  }

  lemma NegatedCoefficient(c: int, T: Pt, p: Pos)
    requires T.A? && (c == p - T.x || c == -T.x)
    ensures VerticalCoefficient(c, T, p)
  {
    if c == p - T.x { CongIntro(c, -T.x, 1, p); }
  }

  method TatePreprocess(mc: MillerCache, P: Point, c: Curve)
    requires mc.Valid(c.q) && P.Special(c.p) && PairingSetting(c, P.Real())
    modifies mc, mc.numa, mc.numc, mc.denomc
    ensures Holds(mc, c, old(P.Real()))
  {
    hide Rem, Mul, Cong, Times, IPow, HasOrder, Associative, Prime, OnCurve, Plus, Reps, Entries, SolinasOrder,
         BitLen, AtDouble, VerticalCoefficient, ShiftCoefficients, Tail, Shifted;
    ghost var T := P.Real();
    ghost var sa, sb := c.solinasa, c.solinasb;
    var a, b := Abs(c.solinasa), Abs(c.solinasb);
    SolinasSizes(sa, sb, c.q);
    TailIsP(sa, sb, T, c.q, c.p);
    var Z := new Point();
    Z.Set(P);
    PreprocessStart(mc, T, c.p);
    if b != 0 {
      PreprocessBoth(mc, Z, a, b, c, T);
    } else {
      var z := PreprocessRun(mc, Z, 1, 0, a, c, T);
    }
    if c.solinasa < 0 {
      mc.denoms1 := c.p - Z.x.a;
      NegatedCoefficient(mc.denoms1, T, c.p);
    }
    mc.numl2c := c.p - Z.x.a;
    NegatedCoefficient(mc.numl2c, T, c.p);
  }

  // The doublings up to 2^b, the copy of 2^b P, the remaining doublings and the
  // line through both points.
  method PreprocessBoth(mc: MillerCache, Z: Point, a: nat, b: nat, c: Curve, ghost P: Pt)
    requires PairingSetting(c, P) && a == Abs(c.solinasa) && b == Abs(c.solinasb) && 0 < b < a
    requires mc.Valid(c.q) && Z.x != Z.y && Z.x.b == 0 && Z.y.b == 0 && !Z.infinity
    requires Entries(mc, 0, P, c.p) && AtDouble(0, Z.x.a, Z.y.a, 1, P, c.p)
    modifies mc, mc.numa, mc.numc, mc.denomc, Z, Z.x, Z.y
    ensures Entries(mc, a, P, c.p)
    ensures c.solinasb < 0 ==> VerticalCoefficient(mc.denomsb, Times(P2(b), P, c.p), c.p)
    ensures ShiftCoefficients(mc.numl1a, mc.numl1c, mc.denoml1c, c.solinasa, c.solinasb, P, c.p)
    ensures var T := Tail(c.solinasa, c.solinasb, P, c.p); T.A? && Z.x.Val() == G(T.x, 0)
  {
    hide Rem, Mul, Cong, CongG, Times, IPow, HasOrder, Associative, Prime, OnCurve, Plus, Reps, Entries, SolinasOrder,
         BitLen, AtDouble, VerticalCoefficient, ShiftCoefficients, Tail, Shifted;
    var bP := PreprocessFirst(mc, Z, b, c, P);
    var z := PreprocessRun(mc, Z, 1, b, a, c, P);
    PreprocessShift(mc, Z, bP, c, P);
  }

  method PreprocessFirst(mc: MillerCache, Z: Point, b: nat, c: Curve, ghost P: Pt) returns (bP: Point)
    requires PairingSetting(c, P) && b == Abs(c.solinasb) && 0 < b <= Abs(c.solinasa)
    requires mc.Valid(c.q) && Z.x != Z.y && Z.x.b == 0 && Z.y.b == 0 && !Z.infinity
    requires Entries(mc, 0, P, c.p) && AtDouble(0, Z.x.a, Z.y.a, 1, P, c.p)
    modifies mc`denomsb, mc.numa, mc.numc, mc.denomc, Z.x, Z.y
    ensures fresh(bP) && fresh(bP.x) && fresh(bP.y) && bP.x != bP.y && !bP.infinity
    ensures Entries(mc, b, P, c.p) && AtDouble(b, Z.x.a, Z.y.a, 1, P, c.p) && Z.x.b == 0 && Z.y.b == 0
    ensures c.solinasb < 0 ==> VerticalCoefficient(mc.denomsb, Times(P2(b), P, c.p), c.p)
    ensures var T := Shifted(c.solinasb, P, c.p);
            T.A? && bP.x.Val() == G(T.x, 0) && CongG(bP.y.Val(), G(T.y, 0), c.p)
  {
    hide Rem, Mul, Cong, CongG, Times, IPow, HasOrder, Associative, Prime, OnCurve, Plus, Reps, Entries, SolinasOrder,
         BitLen, AtDouble, VerticalCoefficient, Shifted;
    bP := new Point();
    var z := PreprocessRun(mc, Z, 1, 0, b, c, P);
    PreprocessCopy(mc, Z, bP, c, P);
  }

  method PreprocessCopy(mc: MillerCache, Z: Point, bP: Point, c: Curve, ghost P: Pt)
    requires PairingSetting(c, P) && c.solinasb != 0 && !Z.infinity && bP.x != bP.y &&
            {Z.x, Z.y} !! {bP.x, bP.y} && Z != bP
    requires var T := Times(P2(Abs(c.solinasb)), P, c.p);
             T.A? && Z.x.Val() == G(T.x, 0) && Z.y.Val() == G(T.y, 0)
    modifies mc`denomsb, bP, bP.x, bP.y
    ensures c.solinasb < 0 ==> VerticalCoefficient(mc.denomsb, Times(P2(Abs(c.solinasb)), P, c.p), c.p)
    ensures var T := Shifted(c.solinasb, P, c.p);
            T.A? && bP.x.Val() == G(T.x, 0) && CongG(bP.y.Val(), G(T.y, 0), c.p)
    ensures !bP.infinity
  {
    hide Rem, Mul, Cong, Times, IPow, HasOrder, Associative, Prime, OnCurve, Plus, SolinasOrder, BitLen,
         VerticalCoefficient, Shifted;
    bP.Set(Z);
    ghost var B := Times(P2(Abs(c.solinasb)), P, c.p);
    OrderOf(0, P, c.q, c.p);
    ShiftedIs(c.solinasb, P, c.p);
    if c.solinasb < 0 {
      mc.denomsb := -Z.x.a;
      NegatedCoefficient(mc.denomsb, B, c.p);
      bP.y.SetNeg(bP.y, c.p);
      NegatedOrdinate(B, bP.y.Val(), c.p);
    }
  }

  method PreprocessShift(mc: MillerCache, Z: Point, bP: Point, c: Curve, ghost P: Pt)
    requires PairingSetting(c, P) && c.solinasb != 0 && !Z.infinity && !bP.infinity
    requires Z.x != Z.y && bP.x != bP.y && {Z.x, Z.y} !! {bP.x, bP.y}
    requires var T := Times(P2(Abs(c.solinasa)), P, c.p);
             T.A? && Z.x.Val() == G(T.x, 0) && Z.y.Val() == G(T.y, 0)
    requires var T := Shifted(c.solinasb, P, c.p);
             T.A? && bP.x.Val() == G(T.x, 0) && CongG(bP.y.Val(), G(T.y, 0), c.p)
    modifies mc`numl1a, mc`numl1c, mc`denoml1c, Z, Z.x, Z.y
    ensures ShiftCoefficients(mc.numl1a, mc.numl1c, mc.denoml1c, c.solinasa, c.solinasb, P, c.p)
    ensures var T := Tail(c.solinasa, c.solinasb, P, c.p); T.A? && Z.x.Val() == G(T.x, 0)
  {
    hide Rem, Mul, Times, IPow, HasOrder, Associative, Prime, OnCurve, Plus, SolinasOrder, BitLen,
         VerticalCoefficient, LineCoefficients, Tail, Shifted, FiniteSum, ChordSlope;
    ghost var S, T := Times(P2(Abs(c.solinasa)), P, c.p), Shifted(c.solinasb, P, c.p);
    ghost var y2 := bP.y.Val();
    ProperChord(c.solinasa, c.solinasb, P, c.q, c.p);
    var la, lc := PreprocessLine(Z, bP, c.p, S, T);
    mc.numl1a, mc.numl1c := la, lc;
    PointAdd(Z, Z, bP, c.p);
    ChordSum(S, T, y2, Z.infinity, Z.x.Val(), Z.y.Val(), c.p);
    mc.denoml1c := c.p - Z.x.a;
    NegatedCoefficient(mc.denoml1c, Plus(S, T, c.p), c.p);
  }
}
