// Powers of integers and of Gaussian integers a + b*i.  The field F_p^2 of the
// library is Z[i] modulo p, so its elements are the Gaussian integers with both
// components in {0, ..., p-1}, and every identity of Z[i] carries over.
module Powers {
  import opened NumberTheory

  function IPow(a: int, n: nat): int {
    if n == 0 then 1 else a * IPow(a, n - 1)
  }

  datatype Gauss = G(a: int, b: int)

  const ZERO := G(0, 0)
  const ONE := G(1, 0)

  function Add(x: Gauss, y: Gauss): Gauss { G(x.a + y.a, x.b + y.b) }

  function Sub(x: Gauss, y: Gauss): Gauss { G(x.a - y.a, x.b - y.b) }

  function Mul(x: Gauss, y: Gauss): Gauss { G(x.a * y.a - x.b * y.b, x.a * y.b + x.b * y.a) }

  function Scale(c: int, x: Gauss): Gauss { G(c * x.a, c * x.b) }

  function Conj(x: Gauss): Gauss { G(x.a, -x.b) }

  function Norm(x: Gauss): int { x.a * x.a + x.b * x.b }

  function Pow(x: Gauss, n: nat): Gauss {
    if n == 0 then ONE else Mul(x, Pow(x, n - 1))
  }

  // Reduction into F_p^2.
  function Red(x: Gauss, p: Pos): Gauss
  {
    G(Rem(x.a, p), Rem(x.b, p))
  }

  ghost predicate CongG(x: Gauss, y: Gauss, p: Pos)
  {
    Red(x, p) == Red(y, p)
  }

  // ----- the ring Z[i] -----

  lemma MulAssoc(x: Gauss, y: Gauss, z: Gauss)
    ensures Mul(Mul(x, y), z) == Mul(x, Mul(y, z))
  {
  }

  lemma MulComm(x: Gauss, y: Gauss)
    ensures Mul(x, y) == Mul(y, x)
  {
  }

  lemma MulSwap(w: Gauss, x: Gauss, y: Gauss, z: Gauss)
    ensures Mul(Mul(w, x), Mul(y, z)) == Mul(Mul(w, y), Mul(x, z))
  {
    MulAssoc(w, x, Mul(y, z)); MulAssoc(x, y, z); MulComm(x, y);
    MulAssoc(y, x, z); MulAssoc(w, y, Mul(x, z));
  }

  lemma MulDistrLeft(x: Gauss, y: Gauss, z: Gauss)
    ensures Mul(Add(x, y), z) == Add(Mul(x, z), Mul(y, z))
  {
  }

  lemma MulDistr(x: Gauss, y: Gauss, z: Gauss)
    ensures Mul(Add(x, y), z) == Add(Mul(x, z), Mul(y, z))
    ensures Mul(x, Add(y, z)) == Add(Mul(x, y), Mul(x, z))
  {
    MulDistrLeft(x, y, z);
    MulDistrLeft(y, z, x);
    hide Mul;
    MulComm(x, Add(y, z)); MulComm(x, y); MulComm(x, z);
  }

  lemma MulSub(a: Gauss, x: Gauss, y: Gauss)
    ensures Mul(a, Sub(x, y)) == Sub(Mul(a, x), Mul(a, y))
  {
    MulDistr(a, Sub(x, y), y);
    assert Add(Sub(x, y), y) == x;
  }

  lemma MulZero(u: Gauss)
    ensures Mul(u, ZERO) == ZERO == Mul(ZERO, u)
  {
  }

  lemma MulOne(x: Gauss)
    ensures Mul(ONE, x) == x && Mul(x, ONE) == x
  {
  }

  lemma ConjMul(x: Gauss, y: Gauss)
    ensures Conj(Mul(x, y)) == Mul(Conj(x), Conj(y))
    ensures Mul(x, Conj(x)) == G(Norm(x), 0)
  {
  }

  // ----- congruence -----

  lemma CongGMul(x: Gauss, y: Gauss, z: Gauss, w: Gauss, p: Pos)
    requires CongG(x, y, p) && CongG(z, w, p)
    ensures CongG(Mul(x, z), Mul(y, w), p)
  {
    hide Rem;
    CongMul(x.a, y.a, z.a, w.a, p); CongMul(x.b, y.b, z.b, w.b, p);
    CongMul(x.a, y.a, z.b, w.b, p); CongMul(x.b, y.b, z.a, w.a, p);
    CongAdd(x.a * z.a, y.a * w.a, x.b * z.b, y.b * w.b, p);
    CongAdd(x.a * z.b, y.a * w.b, x.b * z.a, y.b * w.a, p);
  }

  lemma CongGAdd(x: Gauss, y: Gauss, z: Gauss, w: Gauss, p: Pos)
    requires CongG(x, y, p) && CongG(z, w, p)
    ensures CongG(Add(x, z), Add(y, w), p) && CongG(Sub(x, z), Sub(y, w), p)
  {
    hide Rem;
    CongAdd(x.a, y.a, z.a, w.a, p);
    CongAdd(x.b, y.b, z.b, w.b, p);
  }

  lemma CongGRed(x: Gauss, p: Pos)
    ensures CongG(Red(x, p), x, p)
  {
    CongMod(x.a, p); CongMod(x.b, p);
  }

  lemma {:induction false} CongGPow(x: Gauss, y: Gauss, n: nat, p: Pos)
    requires CongG(x, y, p)
    ensures CongG(Pow(x, n), Pow(y, n), p)
  {
    if n > 0 {
      CongGPow(x, y, n - 1, p);
      CongGMul(x, y, Pow(x, n - 1), Pow(y, n - 1), p);
    }
  }

  lemma {:induction false} CongPow(x: int, y: int, n: nat, p: Pos)
    requires Cong(x, y, p)
    ensures Cong(IPow(x, n), IPow(y, n), p)
  {
    if n > 0 {
      CongPow(x, y, n - 1, p);
      CongMul(x, y, IPow(x, n - 1), IPow(y, n - 1), p);
    }
  }

  // ----- laws of exponents -----

  lemma {:induction false} PowAdd(x: Gauss, m: nat, n: nat)
    ensures Pow(x, m + n) == Mul(Pow(x, m), Pow(x, n))
  {
    hide Mul;
    if m > 0 {
      PowAdd(x, m - 1, n);
      MulAssoc(x, Pow(x, m - 1), Pow(x, n));
    } else {
      MulOne(Pow(x, n));
    }
  }

  lemma {:induction false} PowPow(x: Gauss, m: nat, n: nat)
    ensures m * n >= 0 && Pow(Pow(x, m), n) == Pow(x, m * n)
  {
    if n > 0 {
      PowPow(x, m, n - 1);
      assert m * n == m + m * (n - 1);
      PowAdd(x, m, m * (n - 1));
    } else {
      assert m * n == 0;
    }
  }

  lemma {:induction false} PowMul(x: Gauss, y: Gauss, n: nat)
    ensures Pow(Mul(x, y), n) == Mul(Pow(x, n), Pow(y, n))
  {
    if n > 0 {
      PowMul(x, y, n - 1);
      MulSwap(x, y, Pow(x, n - 1), Pow(y, n - 1));
    }
  }

  lemma {:induction false} PowReal(a: int, n: nat)
    ensures Pow(G(a, 0), n) == G(IPow(a, n), 0)
  {
    if n > 0 { PowReal(a, n - 1); }
  }

  lemma IPowAdd(a: int, m: nat, n: nat)
    ensures IPow(a, m + n) == IPow(a, m) * IPow(a, n)
  {
    PowAdd(G(a, 0), m, n);
    PowReal(a, m); PowReal(a, n); PowReal(a, m + n);
  }

  lemma IPowPow(a: int, m: nat, n: nat)
    ensures m * n >= 0 && IPow(IPow(a, m), n) == IPow(a, m * n)
  {
    PowPow(G(a, 0), m, n);
    PowReal(a, m); PowReal(IPow(a, m), n); PowReal(a, m * n);
  }

  lemma IPowMul(a: int, b: int, n: nat)
    ensures IPow(a * b, n) == IPow(a, n) * IPow(b, n)
  {
    PowMul(G(a, 0), G(b, 0), n);
    PowReal(a, n); PowReal(b, n); PowReal(a * b, n);
  }

  // ----- the binomial theorem -----

  function Choose(n: nat, k: nat): nat {
    if k == 0 then 1 else if n == 0 then 0 else Choose(n - 1, k - 1) + Choose(n - 1, k)
  }

  lemma {:induction false} ChooseSmall(n: nat)
    ensures Choose(n, n) == 1 && forall k: nat :: k > n ==> Choose(n, k) == 0
  {
    if n > 0 { ChooseSmall(n - 1); }
  }

  // The first k + 1 terms of the expansion of (x + y)^n.
  function Binomial(x: Gauss, y: Gauss, n: nat, k: nat): Gauss
    requires k <= n
  {
    var term := Scale(Choose(n, k), Mul(Pow(x, n - k), Pow(y, k)));
    if k == 0 then term else Add(Binomial(x, y, n, k - 1), term)
  }

  // One more factor, as far as the first k + 1 terms go.
  lemma {:induction false} BinomialStep(x: Gauss, y: Gauss, n: nat, k: nat)
    requires k <= n
    ensures Mul(Add(x, y), Binomial(x, y, n, k))
         == Add(Binomial(x, y, n + 1, k), Scale(Choose(n, k), Mul(Pow(x, n - k), Pow(y, k + 1))))
  {
    var c, U, V := Choose(n, k), Pow(x, n - k), Pow(y, k);
    TermStep(x, y, c, U, V);
    if k > 0 {
      BinomialStep(x, y, n, k - 1);
      CollectTerms(Add(x, y), Binomial(x, y, n, k - 1), Binomial(x, y, n + 1, k - 1), c, Choose(n, k - 1),
                   Mul(U, V), Mul(Mul(x, U), V), Mul(U, Mul(y, V)));
    }
  }

  lemma MulScale(x: Gauss, c: int, y: Gauss)
    ensures Mul(x, Scale(c, y)) == Scale(c, Mul(x, y))
  {
  }

  lemma TermStep(x: Gauss, y: Gauss, c: int, u: Gauss, v: Gauss)
    ensures Mul(Add(x, y), Scale(c, Mul(u, v))) == Add(Scale(c, Mul(Mul(x, u), v)), Scale(c, Mul(u, Mul(y, v))))
  {
    MulScale(Add(x, y), c, Mul(u, v));
    MulDistr(x, y, Mul(u, v));
    MulAssoc(x, u, v);
    MulAssoc(y, u, v); MulComm(y, u); MulAssoc(u, y, v);
  }

  lemma CollectTerms(s: Gauss, sum: Gauss, next: Gauss, c: int, d: int, t: Gauss, u: Gauss, v: Gauss)
    requires Mul(s, sum) == Add(next, Scale(d, u))
    requires Mul(s, Scale(c, t)) == Add(Scale(c, u), Scale(c, v))
    ensures Mul(s, Add(sum, Scale(c, t))) == Add(Add(next, Scale(d + c, u)), Scale(c, v))
  {
    MulDistr(s, sum, Scale(c, t));
  }

  lemma {:induction false} BinomialTheorem(x: Gauss, y: Gauss, n: nat)
    ensures Pow(Add(x, y), n) == Binomial(x, y, n, n)
  {
    if n > 0 {
      BinomialTheorem(x, y, n - 1);
      BinomialStep(x, y, n - 1, n - 1);
      ChooseSmall(n - 1);
      ChooseSmall(n);
      assert Pow(x, 0) == ONE;
    }
  }

  // ----- the Frobenius map -----

  lemma {:induction false} ChooseAbsorb(n: nat, k: nat)
    requires 0 < k && 0 < n
    ensures k * Choose(n, k) == n * Choose(n - 1, k - 1)
  {
    if n == 1 {
      ChooseSmall(0);
    } else {
      ChooseAbsorb(n - 1, k);
      if k > 1 {
        ChooseAbsorb(n - 1, k - 1);
        AbsorbStep(n, k, Choose(n - 1, k - 1), Choose(n - 1, k), Choose(n - 2, k - 1), Choose(n - 2, k - 2));
      }
    }
  }

  lemma AbsorbStep(n: int, k: int, c: int, h: int, f: int, g: int)
    requires k * h == (n - 1) * f && (k - 1) * c == (n - 1) * g && c == g + f
    ensures k * (c + h) == n * c
  {
    assert (n - 1) * c == (n - 1) * g + (n - 1) * f;
  }

  lemma PrimeDividesChoose(p: Pos, k: nat)
    requires Prime(p) && 0 < k < p
    ensures Cong(Choose(p, k), 0, p)
  {
    ChooseAbsorb(p, k);
    MultipleIsZero(Choose(p - 1, k - 1), p);
    ModIntro(0, 0, 0, p);
    ModIntro(k, 0, k, p);
    EuclidLemma(k, Choose(p, k), p);
  }

  lemma {:induction false} BinomialModPrime(x: Gauss, y: Gauss, p: Pos, k: nat)
    requires Prime(p) && k < p
    ensures CongG(Binomial(x, y, p, k), Pow(x, p), p)
  {
    if k == 0 {
      assert Pow(y, 0) == ONE;
    } else {
      BinomialModPrime(x, y, p, k - 1);
      PrimeDividesChoose(p, k);
      var c, u := Choose(p, k), Mul(Pow(x, p - k), Pow(y, k));
      CongMul(c, 0, u.a, u.a, p); CongMul(c, 0, u.b, u.b, p);
      CongGAdd(Binomial(x, y, p, k - 1), Pow(x, p), Scale(c, u), ZERO, p);
    }
  }

  lemma FrobeniusAdd(x: Gauss, y: Gauss, p: Pos)
    requires Prime(p)
    ensures CongG(Pow(Add(x, y), p), Add(Pow(x, p), Pow(y, p)), p)
  {
    BinomialTheorem(x, y, p);
    BinomialModPrime(x, y, p, p - 1);
    ChooseSmall(p);
    assert Pow(x, 0) == ONE;
    CongGAdd(Binomial(x, y, p, p - 1), Pow(x, p), Pow(y, p), Pow(y, p), p);
  }

  lemma SuccessorPower(a: int, p: Pos)
    requires Prime(p)
    ensures Cong(IPow(a + 1, p), IPow(a, p) + 1, p)
  {
    hide Mul, Pow, IPow;
    FrobeniusAdd(G(a, 0), ONE, p);
    PowReal(a + 1, p); PowReal(a, p); PowReal(1, p);
    OnePow(p);
  }

  // Fermat's little theorem, first for the naturals.
  lemma {:induction false} FermatNat(a: nat, p: Pos)
    requires Prime(p)
    ensures Cong(IPow(a, p), a, p)
  {
    if a > 0 {
      FermatNat(a - 1, p);
      SuccessorPower(a - 1, p);
      CongAdd(IPow(a - 1, p), a - 1, 1, 1, p);
    }
  }

  lemma {:induction false} OnePow(n: nat)
    ensures IPow(1, n) == 1
  {
    if n > 0 { OnePow(n - 1); }
  }

  lemma IPowStep(a: int, n: nat)
    requires n > 0
    ensures IPow(a, n) == a * IPow(a, n - 1)
  {
  }

  lemma Fermat(a: int, p: Pos)
    requires Prime(p)
    ensures Cong(IPow(a, p), a, p)
    ensures !Cong(a, 0, p) ==> Cong(IPow(a, p - 1), 1, p)
  {
    hide IPow;
    CongMod(a, p);
    FermatNat(Rem(a, p), p);
    CongPow(Rem(a, p), a, p, p);
    if !Cong(a, 0, p) {
      IPowStep(a, p);
      Cancel(a, IPow(a, p - 1), 1, p);
    }
  }

  lemma PowSmall(x: Gauss)
    ensures Pow(x, 0) == ONE && Pow(x, 1) == x && Pow(x, 2) == Mul(x, x)
  {
    assert Pow(x, 0) == ONE;
  }

  // Multiplying by i twice changes the sign.
  lemma PowITwice(n: nat, v: Gauss)
    requires Pow(G(0, 1), n) == v
    ensures Pow(G(0, 1), n + 2) == G(-v.a, -v.b)
  {
    var i := G(0, 1);
    assert Pow(i, n + 1) == Mul(i, v) == G(-v.b, v.a);
    assert Pow(i, n + 2) == Mul(i, Pow(i, n + 1));
  }

  lemma {:induction false} PowI(n: nat)
    requires n % 4 == 3
    ensures Pow(G(0, 1), n) == G(0, -1)
  {
    hide Mul;
    if n == 3 {
      PowSmall(G(0, 1));
      PowITwice(1, G(0, 1));
    } else {
      PowI(n - 4);
      PowITwice(n - 4, G(0, -1));
      PowITwice(n - 2, G(0, 1));
    }
  }

  lemma RealImaginary(x: Gauss)
    ensures x == Add(G(x.a, 0), Mul(G(x.b, 0), G(0, 1)))
    ensures Conj(x) == Add(G(x.a, 0), Mul(G(x.b, 0), G(0, -1)))
  {
  }

  // For p = 3 mod 4 the p-th power of an element of F_p^2 is its conjugate.
  lemma Frobenius(x: Gauss, p: Pos)
    requires Prime(p) && p % 4 == 3
    ensures CongG(Pow(x, p), Conj(x), p)
  {
    hide Mul, Norm;
    var re, im, i := G(x.a, 0), G(x.b, 0), G(0, 1);
    RealImaginary(x);
    FrobeniusAdd(re, Mul(im, i), p);
    PowMul(im, i, p);
    PowReal(x.a, p); PowReal(x.b, p);
    Fermat(x.a, p); Fermat(x.b, p);
    PowI(p);
    CongGMul(G(IPow(x.b, p), 0), im, G(0, -1), G(0, -1), p);
    CongGAdd(Pow(re, p), re, Pow(Mul(im, i), p), Mul(im, G(0, -1)), p);
  }
}
