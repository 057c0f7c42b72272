// tonelli (nonsin.c): square roots modulo an odd prime.
module TonelliShanks {
  import opened NumberTheory
  import opened Powers
  import opened Bits
  import opened Fp2
  import opened Curves

  // mpz_powm
  function PowMod(a: int, n: nat, p: Pos): int { Rem(IPow(a, n), p) }

  // The 2^n-th power.
  function TwoPower(b: int, n: nat): int {
    P2Positive(n);
    IPow(b, P2(n))
  }

  // x^2 = a b, b is a 2^(r-1)-th root of 1 and y of -1.
  ghost predicate Progress(x: int, a: int, b: int, y: int, r: nat, p: Pos) {
    && r >= 1 && Cong(x * x, a * b, p) && 0 <= b < p
    && Cong(TwoPower(b, r - 1), 1, p) && Cong(TwoPower(y, r - 1), -1, p)
  }

  lemma TwoPowerZero(b: int)
    ensures TwoPower(b, 0) == b
  {
    assert P2(0) == 1;
    ISmall(b);
  }

  // Squaring adds one to the exponent.
  lemma TwoPowerStep(b: int, t: int, n: nat, p: Pos)
    requires Cong(t, TwoPower(b, n), p)
    ensures Cong(Rem(t * t, p), TwoPower(b, n + 1), p)
  {
    hide Rem, IPow, P2;
    P2Positive(n);
    assert Cong(Rem(t * t, p), t * t, p) by { RemCong(t * t, Rem(t * t, p), p); }
    CongMul(t, TwoPower(b, n), t, TwoPower(b, n), p);
    IPowAdd(b, P2(n), P2(n));
  }

  lemma {:induction false} P2Sum(m: nat, n: nat)
    ensures P2(m) * P2(n) == P2(m + n)
  {
    IPowAdd(2, m, n);
  }

  lemma TwoPowerTwice(b: int, m: nat, n: nat)
    ensures TwoPower(TwoPower(b, m), n) == TwoPower(b, m + n)
  {
    P2Positive(m); P2Positive(n);
    P2Sum(m, n);
    IPowPow(b, P2(m), P2(n));
  }

  lemma TwoPowerCong(b: int, c: int, n: nat, p: Pos)
    requires Cong(b, c, p)
    ensures Cong(TwoPower(b, n), TwoPower(c, n), p)
  {
    P2Positive(n);
    CongPow(b, c, P2(n), p);
  }

  lemma TwoPowerMul(b: int, c: int, n: nat)
    ensures TwoPower(b * c, n) == TwoPower(b, n) * TwoPower(c, n)
  {
    P2Positive(n);
    IPowMul(b, c, P2(n));
  }

  // A square root of 1 is 1 or -1.
  lemma RootOfOne(t: int, p: Pos)
    requires Prime(p) && Cong(t * t, 1, p)
    ensures Cong(t, 1, p) || Cong(t, -1, p)
  {
    CongSub(t * t, 1, p);
    assert (t - 1) * (t + 1) == t * t - 1;
    EuclidLemma(t - 1, t + 1, p);
    CongSub(t, 1, p); CongSub(t, -1, p);
  }

  lemma {:induction false} ShiftOut(n: nat, e: nat)
    requires forall k :: 0 <= k < e ==> Bit(n, k) == 0
    ensures n == Shift(n, e) * P2(e)
  {
    if e > 0 {
      ShiftOut(n, e - 1);
      ShiftStep(n, e - 1);
      P2Positive(e - 1);
      hide IPow, Shift;
      assert Bit(n, e - 1) == 0;
      HalvePower(Shift(n, e), Shift(n, e - 1), P2(e - 1), P2(e));
    } else {
      assert P2(0) == 1;
    }
  }

  lemma HalvePower(s: int, s': int, u: int, v: int)
    requires s' == 2 * s && v == 2 * u
    ensures s' * u == s * v
  {
  }

  // The start: x = a^((s+1)/2), b = a^s and y = nq^s for p - 1 = 2^e s.
  lemma Start(a: int, nq: int, s: nat, e: nat, x0: int, b: int, x: int, y: int, p: Pos)
    requires Prime(p) && p > 2 && e >= 1 && s % 2 == 1 && s * P2(e) == p - 1
    requires Cong(IPow(nq, (p - 1) / 2), -1, p) && Cong(IPow(a, (p - 1) / 2), 1, p)
    requires x0 == PowMod(a, s / 2, p) && b == Rem(x0 * x0 * a, p) && x == Rem(x0 * a, p) && y == PowMod(nq, s, p)
    ensures Progress(x, a, b, y, e, p)
  {
    hide Rem, IPow, TwoPower;
    HalfOfOrder(s, e, p);
    StartPowers(a, s / 2, x0, p);
    RemCong(x0 * x0 * a, b, p); RemCong(x0 * a, x, p); RemCong(IPow(nq, s), y, p);
    StartSquare(a, x0, b, x, p);
    RootPower(a, s, e, b, 1, p);
    RootPower(nq, s, e, y, -1, p);
  }

  lemma StartSquare(a: int, x0: int, b: int, x: int, p: Pos)
    requires Cong(b, x0 * x0 * a, p) && Cong(x, x0 * a, p)
    ensures Cong(x * x, a * b, p)
  {
    hide Rem;
    CongMul(x, x0 * a, x, x0 * a, p);
    CongMul(a, a, b, x0 * x0 * a, p);
    assert x0 * a * (x0 * a) == a * (x0 * x0 * a);
  }

  lemma HalfOfOrder(s: nat, e: nat, p: int)
    requires e >= 1 && s * P2(e) == p - 1
    ensures s * P2(e - 1) == (p - 1) / 2
  {
    P2Positive(e - 1);
    HalvePower(s, 2 * s, P2(e - 1), P2(e));
    assert 2 * s * P2(e - 1) == 2 * (s * P2(e - 1));
  }

  lemma StartPowers(a: int, h: nat, x0: int, p: Pos)
    requires x0 == PowMod(a, h, p)
    ensures Cong(x0 * x0 * a, IPow(a, 2 * h + 1), p)
  {
    CongMod(IPow(a, h), p);
    IPowAdd(a, h, h); IPowAdd(a, 2 * h, 1); ISmall(a);
    hide Rem, IPow;
    CongMul(x0, IPow(a, h), x0, IPow(a, h), p);
    CongMul(x0 * x0, IPow(a, 2 * h), a, a, p);
  }

  lemma RootPower(a: int, s: nat, e: nat, b: int, c: int, p: Pos)
    requires e >= 1 && Cong(b, IPow(a, s), p) && s * P2(e - 1) == (p - 1) / 2 && Cong(IPow(a, (p - 1) / 2), c, p)
    ensures Cong(TwoPower(b, e - 1), c, p)
  {
    hide Rem, IPow;
    P2Positive(e - 1);
    TwoPowerCong(b, IPow(a, s), e - 1, p);
    IPowPow(a, s, P2(e - 1));
  }

  // One round of the outer loop.
  lemma Round(x: int, a: int, b: int, y: int, r: nat, m: nat, t: int, y': int, x': int, b': int, p: Pos)
    requires Prime(p) && p > 2 && Progress(x, a, b, y, r, p) && 1 <= m < r
    requires Cong(TwoPower(b, m), 1, p) && !Cong(TwoPower(b, m - 1), 1, p)
    requires Cong(t, TwoPower(y, r - m - 1), p)
    requires y' == Rem(t * t, p) && x' == Rem(x * t, p) && b' == Rem(b * y', p)
    ensures Progress(x', a, b', y', m, p)
  {
    hide IPow, TwoPower;
    TwoPowerStep(y, t, r - m - 1, p);
    CongMod(x * t, p); CongMod(b * y', p);
    NewRoot(y, r, m, y', p);
    MinusOne(b, m, p);
    NewRootOfOne(b, m, y', b', p);
    NewSquare(x, a, b, t, y', x', b', p) by { CongMod(t * t, p); }
  }

  lemma NewRoot(y: int, r: nat, m: nat, y': int, p: Pos)
    requires 1 <= m < r && Cong(TwoPower(y, r - 1), -1, p) && Cong(y', TwoPower(y, r - m), p)
    ensures Cong(TwoPower(y', m - 1), -1, p)
  {
    hide Rem, IPow, TwoPower;
    TwoPowerCong(y', TwoPower(y, r - m), m - 1, p);
    TwoPowerTwice(y, r - m, m - 1);
  }

  lemma MinusOne(b: int, m: nat, p: Pos)
    requires Prime(p) && m >= 1 && Cong(TwoPower(b, m), 1, p) && !Cong(TwoPower(b, m - 1), 1, p)
    ensures Cong(TwoPower(b, m - 1), -1, p)
  {
    P2Positive(m - 1);
    hide Rem, IPow;
    IPowAdd(b, P2(m - 1), P2(m - 1));
    RootOfOne(TwoPower(b, m - 1), p);
  }

  lemma NewRootOfOne(b: int, m: nat, y': int, b': int, p: Pos)
    requires m >= 1 && Cong(TwoPower(b, m - 1), -1, p) && Cong(TwoPower(y', m - 1), -1, p) && Cong(b', b * y', p)
    ensures Cong(TwoPower(b', m - 1), 1, p)
  {
    hide Rem, IPow, TwoPower;
    TwoPowerCong(b', b * y', m - 1, p);
    TwoPowerMul(b, y', m - 1);
    CongMul(TwoPower(b, m - 1), -1, TwoPower(y', m - 1), -1, p);
  }

  lemma NewSquare(x: int, a: int, b: int, t: int, y': int, x': int, b': int, p: Pos)
    requires Cong(x * x, a * b, p) && Cong(y', t * t, p) && Cong(x', x * t, p) && Cong(b', b * y', p)
    ensures Cong(x' * x', a * b', p)
  {
    hide Rem;
    CongMul(x', x * t, x', x * t, p);
    assert x * t * (x * t) == x * x * (t * t);
    CongMul(x * x, a * b, t * t, y', p);
    CongMul(a, a, b', b * y', p);
    assert a * b * y' == a * (b * y');
  }

  // ----- which of the two roots it is -----

  // The start times the k-th power of Y, where k has only the digits decided so
  // far; y is the power of Y that the next digit starts from.
  ghost predicate Formed(x: int, y: int, x0: int, Y: int, e: nat, r: nat, k: nat, p: Pos) {
    r <= e && k < P2(e - r) && Cong(x, x0 * IPow(Y, k), p) && Cong(y, TwoPower(Y, e - r), p)
  }

  lemma FormedStart(a: int, nq: int, s: nat, e: nat, x0: int, x: int, y: int, p: Pos)
    requires s % 2 == 1 && x0 == PowMod(a, s / 2, p) && x == Rem(x0 * a, p) && y == PowMod(nq, s, p)
    ensures Formed(x, y, IPow(a, (s + 1) / 2), IPow(nq, s), e, e, 0, p)
  {
    CongMod(x0 * a, p); CongMod(IPow(a, s / 2), p); CongMod(IPow(nq, s), p);
    IPowAdd(a, s / 2, 1); ISmall(a);
    assert (s + 1) / 2 == s / 2 + 1;
    hide Rem, IPow;
    TwoPowerZero(IPow(nq, s));
    CongMul(x0, IPow(a, s / 2), a, a, p);
    assert IPow(a, s / 2 + 1) * IPow(IPow(nq, s), 0) == IPow(a, s / 2 + 1) by { PowerZero(IPow(nq, s)); }
    P2Positive(0);
  }

  lemma PowerZero(y: int)
    ensures IPow(y, 0) == 1
  {
  }

  lemma FormedRound(x: int, y: int, x0: int, Y: int, e: nat, r: nat, k: nat, m: nat, t: int, y': int, x': int, p: Pos)
    requires Formed(x, y, x0, Y, e, r, k, p) && 1 <= m < r && Cong(t, TwoPower(y, r - m - 1), p)
    requires y' == Rem(t * t, p) && x' == Rem(x * t, p)
    ensures m < e && P2(e - m - 1) >= 1 && Formed(x', y', x0, Y, e, m, k + P2(e - m - 1), p)
  {
    P2Positive(e - m - 1);
    if e - r < e - m - 1 { P2Grows(e - r, e - m - 1); }
    hide Rem, IPow, TwoPower, P2;
    TwoPowerCong(y, TwoPower(Y, e - r), r - m - 1, p);
    TwoPowerTwice(Y, e - r, r - m - 1);
    TwoPowerStep(Y, t, e - m - 1, p);
    MoreDigits(x, x0, Y, k, e - m - 1, t, x', p) by { CongMod(x * t, p); }
  }

  lemma MoreDigits(x: int, x0: int, Y: int, k: nat, i: nat, t: int, x': int, p: Pos)
    requires Cong(x, x0 * IPow(Y, k), p) && Cong(t, TwoPower(Y, i), p) && Cong(x', x * t, p) && P2(i) >= 1
    ensures Cong(x', x0 * IPow(Y, k + P2(i)), p)
  {
    IPowAdd(Y, k, P2(i));
    hide Rem, IPow, P2;
    CongMul(x, x0 * IPow(Y, k), t, TwoPower(Y, i), p);
    assert x0 * IPow(Y, k) * TwoPower(Y, i) == x0 * (IPow(Y, k) * IPow(Y, P2(i)));
  }

  // Below its 2^(e-1)-th power Y has no power -1.
  lemma {:induction false} NotMinusOne(Y: int, e: nat, d: nat, p: Pos)
    requires p > 2 && e >= 1 && d < P2(e - 1) && Cong(TwoPower(Y, e - 1), -1, p)
    ensures !Cong(IPow(Y, d), -1, p)
    decreases e
  {
    hide Rem, IPow, TwoPower;
    if Cong(IPow(Y, d), -1, p) {
      if e == 1 {
        assert P2(0) == 1 by { P2Positive(0); PowerZero(2); }
        PowerZero(Y);
        OneIsNotMinusOne(p);
      } else if d % 2 == 1 {
        OddPower(Y, e, d, p);
        OneIsNotMinusOne(p);
      } else {
        TwoPowerTwice(Y, 1, e - 2);
        HalfPower(Y, d);
        P2Positive(e - 2);
        NotMinusOne(TwoPower(Y, 1), e - 1, d / 2, p);
      }
    }
  }

  lemma OneIsNotMinusOne(p: Pos)
    requires p > 2
    ensures !Cong(1, -1, p)
  {
    ModIntro(1, 0, 1, p); ModIntro(-1, -1, p - 1, p);
  }

  lemma HalfPower(Y: int, d: nat)
    requires d % 2 == 0
    ensures IPow(TwoPower(Y, 1), d / 2) == IPow(Y, d)
  {
    P2Positive(0);
    PowerZero(2);
    hide IPow;
    assert P2(1) == 2;
    IPowPow(Y, 2, d / 2);
  }

  // If an odd power d of Y were -1, its 2^(e-1)-th power would be 1 and -1.
  lemma OddPower(Y: int, e: nat, d: nat, p: Pos)
    requires p > 2 && e >= 2 && d % 2 == 1 && Cong(TwoPower(Y, e - 1), -1, p) && Cong(IPow(Y, d), -1, p)
    ensures Cong(1, -1, p)
  {
    hide Rem, IPow;
    P2Positive(e - 1); P2Positive(e - 2);
    var u := P2(e - 1);
    TwoPowerCong(IPow(Y, d), -1, e - 1, p);
    CongPow(TwoPower(Y, e - 1), -1, d, p);
    IPowPow(Y, d, u); IPowPow(Y, u, d);
    assert d * u == u * d;
    SignPower(u); SignPower(d);
    CongMeet(IPow(IPow(Y, d), u), 1, -1, p);
  }

  lemma {:induction false} SignPower(n: nat)
    ensures IPow(-1, n) == if n % 2 == 0 then 1 else -1
  {
    if n > 0 { SignPower(n - 1); }
  }

  // Only one square root has this form.
  lemma OneRoot(a: int, x: int, z: int, nq: int, s: nat, e: nat, k: nat, l: nat, p: Pos)
    requires Prime(p) && p > 2 && e >= 1 && s * P2(e) == p - 1
    requires Cong(IPow(nq, (p - 1) / 2), -1, p) && Cong(IPow(a, (p - 1) / 2), 1, p)
    requires Cong(x * x, a, p) && Cong(z * z, a, p) && k < P2(e - 1) && l < P2(e - 1)
    requires Cong(x, IPow(a, (s + 1) / 2) * IPow(IPow(nq, s), k), p)
    requires Cong(z, IPow(a, (s + 1) / 2) * IPow(IPow(nq, s), l), p)
    ensures Cong(x, z, p)
    decreases if k < l then 1 else 0
  {
    hide Rem, Cong, IPow, P2;
    if k < l {
      OneRoot(a, z, x, nq, s, e, l, k, p);
      CongSelf(z, p);
      CongMeet(z, x, z, p);
    } else {
      var Y := IPow(nq, s);
      CongSelf(Y, p);
      HalfOfOrder(s, e, p);
      RootPower(nq, s, e, Y, -1, p);
      NotMinusOne(Y, e, k - l, p);
      PowersApart(x, z, IPow(a, (s + 1) / 2), Y, l, k - l, p);
      CongSelf(z * z, p);
      CongMeet(z * z, a, z * z, p);
      CongTrans(x * x, a, z * z, p);
      RootNonZero(a, z, p);
      SameOrOpposite(x, z, IPow(Y, k - l), p);
    }
  }

  lemma PowersApart(x: int, z: int, x0: int, Y: int, l: nat, d: nat, p: Pos)
    requires Cong(x, x0 * IPow(Y, l + d), p) && Cong(z, x0 * IPow(Y, l), p)
    ensures Cong(x, z * IPow(Y, d), p)
  {
    IPowAdd(Y, l, d);
    hide Rem, IPow;
    CongMul(z, x0 * IPow(Y, l), IPow(Y, d), IPow(Y, d), p);
    assert x0 * IPow(Y, l) * IPow(Y, d) == x0 * (IPow(Y, l) * IPow(Y, d));
  }

  lemma RootNonZero(a: int, z: int, p: Pos)
    requires Prime(p) && p > 2 && Cong(z * z, a, p) && Cong(IPow(a, (p - 1) / 2), 1, p)
    ensures !Cong(z, 0, p)
  {
    if Cong(z, 0, p) {
      CongMul(z, 0, z, z, p);
      CongPow(a, 0, (p - 1) / 2, p);
      assert IPow(0, (p - 1) / 2) == 0;
      CanonicalNonZero(1, p);
    }
  }

  lemma SameOrOpposite(x: int, z: int, w: int, p: Pos)
    requires Prime(p) && Cong(x * x, z * z, p) && Cong(x, z * w, p) && !Cong(z, 0, p) && !Cong(w, -1, p)
    ensures Cong(x, z, p)
  {
    hide Rem;
    CongSub(x * x, z * z, p);
    assert (x - z) * (x + z) == x * x - z * z;
    EuclidLemma(x - z, x + z, p);
    CongSub(x, z, p);
    if Cong(x + z, 0, p) {
      CongAdd(x, z * w, z, z, p);
      assert z * w + z == z * (w + 1);
      EuclidLemma(z, w + 1, p);
      CongSub(w, -1, p);
    }
  }

  lemma NotOne(b: int, p: Pos)
    requires 0 <= b < p && p > 1
    ensures Cong(b, 1, p) <==> b == 1
  {
    ModIntro(b, 0, b, p); ModIntro(1, 0, 1, p);
  }

  // The least m with b^(2^m) = 1, which is below r.
  method FindOrder(b: int, r: nat, p: Pos) returns (m: nat)
    requires p > 2 && r >= 1 && 0 <= b < p && b != 1 && Cong(TwoPower(b, r - 1), 1, p)
    ensures 1 <= m < r && Cong(TwoPower(b, m), 1, p) && !Cong(TwoPower(b, m - 1), 1, p)
  {
    hide IPow, TwoPower, Rem;
    m := 1;
    var t := b;
    TwoPowerZero(b);
    NotOne(b, p);
    while true
      invariant 1 <= m < r && 0 <= t < p && Cong(t, TwoPower(b, m - 1), p) && t != 1
      decreases r - m
    {
      TwoPowerStep(b, t, m - 1, p);
      NotOne(t, p);
      t := t * t;
      t := Rem(t, p);
      NotOne(t, p);
      if t == 1 { break; }
      m := m + 1;
    }
  }

  // One pass of the outer loop.
  method OneRound(x0: int, a: int, b0: int, y0: int, r0: nat, ghost xs: int, ghost ys: int, ghost e: nat,
                  ghost k0: nat, p: Pos)
    returns (x: int, b: int, y: int, r: nat, ghost k: nat)
    requires Prime(p) && p > 2 && b0 != 1
    requires Progress(x0, a, b0, y0, r0, p) && Formed(x0, y0, xs, ys, e, r0, k0, p)
    ensures r < r0 && Progress(x, a, b, y, r, p) && Formed(x, y, xs, ys, e, r, k, p) && 0 <= x < p
  {
    hide IPow, TwoPower, Rem, Progress, Formed;
    OfProgress(x0, a, b0, y0, r0, p);
    r := FindOrder(b0, r0, p);
    var t := y0;
    TwoPowerZero(y0);
    for i := 0 to r0 - r - 1
      invariant Cong(t, TwoPower(y0, i), p)
    {
      TwoPowerStep(y0, t, i, p);
      t := t * t;
      t := Rem(t, p);
    }
    y := t * t;
    y := Rem(y, p);
    x := x0 * t;
    x := Rem(x, p);
    b := b0 * y;
    b := Rem(b, p);
    Round(x0, a, b0, y0, r0, r, t, y, x, b, p);
    FormedRound(x0, y0, xs, ys, e, r0, k0, r, t, y, x, p);
    k := k0 + P2(e - r - 1);
  }

  // The square root of a that a non-residue nq leads to: for p - 1 = 2^e s with
  // odd s the one that differs from a^((s+1)/2) by a power of nq^s below the
  // 2^(e-1)-th.
  method Tonelli(a: int, p: Pos, nq: int) returns (x: int, ghost s: nat, ghost e: nat, ghost k: nat)
    requires Prime(p) && p > 2
    requires Cong(IPow(nq, (p - 1) / 2), -1, p) && Cong(IPow(a, (p - 1) / 2), 1, p)
    ensures Cong(x * x, a, p) && 0 <= x < p
    ensures s % 2 == 1 && e >= 1 && s * P2(e) == p - 1 && k < P2(e - 1)
    ensures Cong(x, IPow(a, (s + 1) / 2) * IPow(IPow(nq, s), k), p)
  {
    hide IPow, TwoPower, Rem, Shift, Bit, BitLen, Progress, Formed;
    var qq := p - 1;
    PrimeOdd(p);
    LeadingBit(qq);
    ShiftStep(qq, BitLen(qq) - 1);
    var r := Scan1(qq, 0, BitLen(qq) - 1);
    e := r;
    ShiftOut(qq, e);
    ShiftStep(qq, e);
    FirstBit(qq, e);
    qq := Shift(qq, r);
    var y := PowMod(nq, qq, p);
    s, k := qq, 0;
    qq := qq / 2;
    x := PowMod(a, qq, p);
    ghost var x0 := x;
    var b := x * x;
    b := b * a;
    b := Rem(b, p);
    x := x * a;
    x := Rem(x, p);
    Start(a, nq, s, e, x0, b, x, y, p);
    ghost var xs, ys := IPow(a, (s + 1) / 2), IPow(nq, s);
    FormedStart(a, nq, s, e, x0, x, y, p);
    while b != 1
      invariant Progress(x, a, b, y, r, p) && Formed(x, y, xs, ys, e, r, k, p) && 0 <= x < p
      decreases r
    {
      x, b, y, r, k := OneRound(x, a, b, y, r, xs, ys, e, k, p);
    }
    OfProgress(x, a, b, y, r, p);
    OfFormed(x, y, xs, ys, e, r, k, p);
    assert a * 1 == a;
  }

  lemma OfProgress(x: int, a: int, b: int, y: int, r: nat, p: Pos)
    requires Progress(x, a, b, y, r, p)
    ensures r >= 1 && Cong(x * x, a * b, p) && 0 <= b < p && Cong(TwoPower(b, r - 1), 1, p)
  {
  }

  lemma OfFormed(x: int, y: int, x0: int, Y: int, e: nat, r: nat, k: nat, p: Pos)
    requires Formed(x, y, x0, Y, e, r, k, p) && r >= 1
    ensures k < P2(e - 1) && Cong(x, x0 * IPow(Y, k), p)
  {
    if r > 1 { P2Grows(e - r, e - 1); }
  }

  lemma FirstBit(n: nat, e: nat)
    requires n % 2 == 0 && Bit(n, e) == 1
    ensures e >= 1
  {
    assert Shift(n, 0) == n;
  }
}
