// Integers modulo m, as the GMP routines present them, and the facts about a
// prime modulus that everything else rests on: Bezout, Euclid's lemma and
// inverses.  Two integers are congruent when their Euclidean remainders agree.
module NumberTheory {

  type Pos = m: int | 0 < m witness 1

  ghost predicate Prime(p: int) {
    2 <= p && forall d :: 1 < d < p ==> p % d != 0
  }

  // mpz_mod: the remainder in {0, ..., m - 1}.
  function Rem(a: int, m: Pos): (r: int)
    ensures 0 <= r < m
  {
    a % m
  }

  predicate Cong(a: int, b: int, m: Pos)
  {
    Rem(a, m) == Rem(b, m)
  }

  // ----- remainders -----

  lemma MulAtLeast(m: int, d: int)
    requires m > 0
    ensures d >= 1 ==> m * d >= m
    ensures d <= -1 ==> m * d <= -m
  {
  }

  lemma ModIntro(x: int, k: int, r: int, m: Pos)
    requires 0 <= r < m && x == k * m + r
    ensures x % m == r && x / m == k
  {
    var d := x / m - k;
    assert m * (x / m) + x % m == x;
    assert m * d == r - x % m by { assert m * (x / m - k) == m * (x / m) - m * k; }
    MulAtLeast(m, d);
  }

  lemma MultipleIsZero(k: int, m: Pos)
    ensures (k * m) % m == 0 && (m * k) % m == 0
  {
    ModIntro(k * m, k, 0, m);
  }

  lemma CongIntro(a: int, b: int, k: int, m: Pos)
    requires a - b == k * m
    ensures Cong(a, b, m)
  {
    assert b == m * (b / m) + b % m;
    assert a == (b / m + k) * m + b % m;
    ModIntro(a, b / m + k, b % m, m);
  }

  lemma CongElim(a: int, b: int, m: Pos) returns (k: int)
    requires Cong(a, b, m)
    ensures a - b == k * m
  {
    k := a / m - b / m;
    assert a == m * (a / m) + a % m;
    assert b == m * (b / m) + b % m;
  }

  lemma CongMod(a: int, m: Pos)
    ensures Cong(a % m, a, m) && 0 <= a % m < m
  {
    CongIntro(a % m, a, -(a / m), m);
  }

  lemma CongAdd(a: int, b: int, c: int, d: int, m: Pos)
    requires Cong(a, b, m) && Cong(c, d, m)
    ensures Cong(a + c, b + d, m) && Cong(a - c, b - d, m)
  {
    hide Rem;
    var k := CongElim(a, b, m);
    var l := CongElim(c, d, m);
    CongIntro(a + c, b + d, k + l, m);
    CongIntro(a - c, b - d, k - l, m);
  }

  lemma CongMul(a: int, b: int, c: int, d: int, m: Pos)
    requires Cong(a, b, m) && Cong(c, d, m)
    ensures Cong(a * c, b * d, m)
  {
    hide Rem;
    var k := CongElim(a, b, m);
    var l := CongElim(c, d, m);
    assert a * c - b * d == (k * c + b * l) * m by {
      assert a * c - b * d == (a - b) * c + b * (c - d);
    }
    CongIntro(a * c, b * d, k * c + b * l, m);
  }

  lemma CongDiff(a: int, b: int, m: Pos)
    ensures Cong(a, b, m) <==> (a - b) % m == 0
  {
    if Cong(a, b, m) {
      var k := CongElim(a, b, m);
      MultipleIsZero(k, m);
    }
    if (a - b) % m == 0 {
      assert a - b == m * ((a - b) / m) + 0;
      CongIntro(a, b, (a - b) / m, m);
    }
  }

  lemma CongSub(a: int, b: int, m: Pos)
    ensures Cong(a, b, m) <==> Cong(a - b, 0, m)
  {
    hide Rem;
    if Cong(a, b, m) { CongAdd(a, b, b, b, m); }
    if Cong(a - b, 0, m) { CongAdd(a - b, 0, b, b, m); }
  }

  lemma CongSmall(a: int, b: int, m: Pos)
    requires 0 <= a < m && 0 <= b < m && Cong(a, b, m)
    ensures a == b
  {
    ModIntro(a, 0, a, m);
    ModIntro(b, 0, b, m);
  }

  lemma CongSelf(a: int, m: Pos)
    ensures Cong(a, a, m)
  {
  }

  lemma CongTrans(a: int, b: int, c: int, m: Pos)
    requires Cong(a, b, m) && Cong(b, c, m)
    ensures Cong(a, c, m)
  {
  }

  lemma NegatedNonZero(a: int, m: Pos)
    requires !Cong(-a, 0, m)
    ensures !Cong(a, 0, m)
  {
    hide Rem;
    if Cong(a, 0, m) { CongAdd(0, 0, a, 0, m); }
  }

  // If f is an integer combination of multiples of m then f is a multiple of m.
  lemma Combine(f: int, c: int, g: int, d: int, h: int, m: Pos)
    requires Cong(g, 0, m) && Cong(h, 0, m)
    requires f == c * g + d * h
    ensures Cong(f, 0, m)
  {
    hide Rem;
    var k := CongElim(g, 0, m);
    var l := CongElim(h, 0, m);
    assert f == (c * k + d * l) * m;
    CongIntro(f, 0, c * k + d * l, m);
  }

  // ----- greatest common divisors and inverses -----

  // The extended Euclidean algorithm: (g, u, v) with g = u a + v b.
  function ExtGcd(a: nat, b: nat): (r: (int, int, int))
    requires a > 0 || b > 0
    ensures r.0 > 0 && r.0 == r.1 * a + r.2 * b
    ensures a % r.0 == 0 && b % r.0 == 0
    decreases b
  {
    if b == 0 then
      MultipleIsZero(1, a); (a, 1, 0)
    else
      DivMod(a, b);
      var k, m := a / b, a % b;
      var (g, u, v) := ExtGcd(b, m);
      ExtGcdStep(a, b, k, m, g, u, v);
      (g, v, u - k * v)
  }

  lemma DivMod(a: nat, b: nat)
    requires b > 0
    ensures a == b * (a / b) + a % b && 0 <= a % b < b
  {
  }

  lemma ExtGcdStep(a: int, b: int, k: int, r: int, g: int, u: int, v: int)
    requires g > 0 && a == b * k + r && g == u * b + v * r
    requires b % g == 0 && r % g == 0
    ensures g == v * a + (u - k * v) * b && a % g == 0
  {
    assert v * r == v * a - v * (b * k);
    assert v * (b * k) == (k * v) * b;
    ModIntro(0, 0, 0, g);
    Combine(a, k, b, 1, r, g);
  }

  predicate IsInverse(a: int, u: int, m: Pos)
  {
    1 < m && 0 <= u < m && (a * u) % m == 1
  }

  ghost predicate Invertible(a: int, m: Pos)
  {
    exists u :: IsInverse(a, u, m)
  }

  // mpz_invert: the inverse when there is one; otherwise the destination is
  // left undefined.
  method MpzInvert(a: int, m: Pos) returns (ok: bool, u: int)
    ensures ok <==> Invertible(a, m)
    ensures ok ==> IsInverse(a, u, m)
  {
    var r := ExtGcd(a % m, m);
    if m > 1 { CommonDivisor(a, m); }
    if m > 1 && r.0 == 1 {
      u := r.1 % m;
      InverseFromBezout(a, r.1, r.2, m);
      ok := true;
    } else {
      u := *;
      ok := false;
    }
  }

  lemma InverseFromBezout(a: int, u: int, v: int, m: Pos)
    requires m > 1 && u * (a % m) + v * m == 1
    ensures IsInverse(a, u % m, m)
  {
    CongMod(u, m); CongMod(a, m);
    CongMul(a, a % m, u % m, u, m);
    assert (a % m) * u - 1 == (-v) * m;
    CongIntro((a % m) * u, 1, -v, m);
    ModIntro(1, 0, 1, m);
  }

  lemma CommonDivisor(a: int, m: Pos)
    requires m > 1
    ensures Invertible(a, m) <==> ExtGcd(a % m, m).0 == 1
  {
    var (g, u, v) := ExtGcd(a % m, m);
    if g == 1 { InverseFromBezout(a, u, v, m); }
    if Invertible(a, m) {
      var w :| IsInverse(a, w, m);
      DivisorIsOne(a, w, g, m);
    }
  }

  // A common divisor of an invertible a and m divides 1.
  lemma DivisorIsOne(a: int, w: int, g: Pos, m: Pos)
    requires m > 1 && IsInverse(a, w, m) && (a % m) % g == 0 && m % g == 0
    ensures g == 1
  {
    OneCong(a * w, m);
    RemCong(a, Rem(a, m), m);
    CongDiff(a % m, 0, g); CongDiff(m, 0, g);
    var r := a % m;
    hide Rem, Cong;
    CongSelf(w, m);
    CongMul(r, a, w, w, m);
    CongTrans(r * w, a * w, 1, m);
    var k := CongElim(r * w, 1, m);
    Combine(1, w, r, -k, m, g);
    if g > 1 { CanonicalNonZero(1, g); }
  }

  lemma OneCong(x: int, m: Pos)
    requires m > 1 && x % m == 1
    ensures Cong(x, 1, m)
  {
    ModIntro(1, 0, 1, m);
  }

  lemma InverseUnique(a: int, u: int, v: int, m: Pos)
    requires IsInverse(a, u, m) && (a * v) % m == 1
    ensures Cong(u, v, m)
  {
    OneCong(a * u, m); OneCong(a * v, m);
    hide Rem, Cong;
    CongSelf(u, m); CongSelf(v, m);
    CongMul(a * u, 1, v, v, m);
    CongMul(a * v, 1, u, u, m);
    SwapFactors(a, u, v);
    CongMeet((a * v) * u, 1 * u, 1 * v, m);
  }

  lemma SwapFactors(a: int, u: int, v: int)
    ensures (a * u) * v == (a * v) * u
  {
  }

  lemma CongMeet(a: int, b: int, c: int, m: Pos)
    requires Cong(a, b, m) && Cong(a, c, m)
    ensures Cong(b, c, m)
  {
  }

  lemma PrimeInvertible(a: int, p: Pos)
    requires Prime(p)
    ensures Invertible(a, p) <==> !Cong(a, 0, p)
  {
    CommonDivisor(a, p);
    var (g, u, v) := ExtGcd(a % p, p);
    ModIntro(0, 0, 0, p);
    if a % p != 0 {
      DivisorAtMost(a % p, g);
    } else {
      MulAtLeast(p, v);
    }
  }

  lemma DivisorAtMost(a: int, g: int)
    requires a > 0 && g > 0 && a % g == 0
    ensures g <= a
  {
    assert a == g * (a / g);
    MulAtLeast(g, a / g);
  }

  // Euclid's lemma: Z/p has no zero divisors.
  lemma EuclidLemma(a: int, b: int, p: Pos)
    requires Prime(p) && Cong(a * b, 0, p)
    ensures Cong(a, 0, p) || Cong(b, 0, p)
  {
    PrimeInvertible(a, p);
    if Invertible(a, p) {
      var u :| IsInverse(a, u, p);
      ModIntro(1, 0, 1, p);
      CongMul(a * u, 1, b, b, p);
      CongMul(a * b, 0, u, u, p);
      assert (a * u) * b == (a * b) * u;
    }
  }

  lemma Cancel(c: int, x: int, y: int, p: Pos)
    requires Prime(p) && !Cong(c, 0, p) && Cong(c * x, c * y, p)
    ensures Cong(x, y, p)
  {
    hide Rem, Cong, Prime;
    CongSub(c * x, c * y, p);
    assert c * x - c * y == c * (x - y);
    EuclidLemma(c, x - y, p);
    CongSub(x, y, p);
  }

  lemma NonZeroMul(a: int, b: int, p: Pos)
    requires Prime(p) && !Cong(a, 0, p) && !Cong(b, 0, p)
    ensures !Cong(a * b, 0, p)
  {
    if Cong(a * b, 0, p) { EuclidLemma(a, b, p); }
  }

  lemma CanonicalNonZero(a: int, p: Pos)
    requires 0 < a < p
    ensures !Cong(a, 0, p)
  {
    ModIntro(a, 0, a, p); ModIntro(0, 0, 0, p);
  }

  lemma RemCong(e: int, t: int, p: Pos)
    requires t == Rem(e, p)
    ensures Cong(t, e, p)
  {
    CongMod(e, p);
  }

  lemma PrimeOdd(p: int)
    requires Prime(p) && p > 2
    ensures p % 2 == 1
  {
    assert p % 2 != 0;
  }

  lemma OddTimesOdd(k: int, r: int)
    requires k % 2 == 1 && r % 2 == 1
    ensures (k * r) % 2 == 1
  {
    var a, b := k / 2, r / 2;
    OddExpand(k, r, a, b);
    OddNumber(k * r, 2 * (a * b) + a + b);
  }

  lemma OddExpand(k: int, r: int, a: int, b: int)
    requires k == 2 * a + 1 && r == 2 * b + 1
    ensures k * r == 2 * (2 * (a * b) + a + b) + 1
  {
    assert k * r == 2 * (a * r) + r;
    assert a * r == 2 * (a * b) + a;
  }

  lemma OddNumber(x: int, h: int)
    requires x == 2 * h + 1
    ensures x % 2 == 1
  {
  }
}
