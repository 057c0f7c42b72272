// Multiples n P of a curve point, for every integer n, and points of order q.
// Everything here follows from associativity of the chord-and-tangent law.
module PointGroup {
  import opened NumberTheory
  import opened EllipticCurve

  // The curve is over a field of characteristic above 3 and its law is
  // associative.
  ghost predicate GroupLaw(p: Pos) { Field(p) && Associative(p) }

  function TimesNat(n: nat, P: Pt, p: Pos): Pt
  {
    if n == 0 then O else Plus(TimesNat(n - 1, P, p), P, p)
  }

  function Times(n: int, P: Pt, p: Pos): Pt
  {
    if n >= 0 then TimesNat(n, P, p) else Neg(TimesNat(-n, P, p), p)
  }

  ghost predicate HasOrder(P: Pt, q: Pos, p: Pos)
  {
    q > 1 && OnCurve(P, p) && forall k: int :: Times(k, P, p) == O <==> Cong(k, 0, q)
  }

  lemma {:induction false} TimesNatOnCurve(n: nat, P: Pt, p: Pos)
    requires Field(p) && OnCurve(P, p)
    ensures OnCurve(TimesNat(n, P, p), p)
  {
    hide Plus, OnCurve;
    if n > 0 {
      TimesNatOnCurve(n - 1, P, p);
      AddOnCurve(TimesNat(n - 1, P, p), P, p);
    } else {
      OIsOnCurve(p);
    }
  }

  lemma OIsOnCurve(p: Pos)
    ensures OnCurve(O, p)
  {
  }

  lemma TimesOnCurve(n: int, P: Pt, p: Pos)
    requires GroupLaw(p) && OnCurve(P, p)
    ensures OnCurve(Times(n, P, p), p)
  {
    if n >= 0 {
      TimesNatOnCurve(n, P, p);
    } else {
      TimesNatOnCurve(-n, P, p);
      NegOnCurve(TimesNat(-n, P, p), p);
    }
  }

  lemma Assoc(P: Pt, Q: Pt, R: Pt, p: Pos)
    requires GroupLaw(p) && OnCurve(P, p) && OnCurve(Q, p) && OnCurve(R, p)
    ensures Plus(Plus(P, Q, p), R, p) == Plus(P, Plus(Q, R, p), p)
  {
  }

  lemma InverseIsNeg(X: Pt, S: Pt, p: Pos)
    requires GroupLaw(p) && OnCurve(X, p) && OnCurve(S, p) && Plus(X, S, p) == O
    ensures X == Neg(S, p)
  {
    NegOnCurve(S, p);
    Assoc(X, S, Neg(S, p), p);
    hide Associative;
  }

  lemma TimesSucc(n: int, P: Pt, p: Pos)
    requires GroupLaw(p) && OnCurve(P, p)
    ensures Times(n + 1, P, p) == Plus(Times(n, P, p), P, p)
  {
    if n < 0 {
      var S, T := TimesNat(-n - 1, P, p), TimesNat(-n, P, p);
      assert T == Plus(S, P, p);
      assert Times(n + 1, P, p) == Neg(S, p);
      TimesNatOnCurve(-n - 1, P, p);
      TimesNatOnCurve(-n, P, p);
      hide TimesNat;
      PeelNeg(S, T, P, p);
    }
  }

  lemma PeelNeg(S: Pt, T: Pt, P: Pt, p: Pos)
    requires GroupLaw(p) && OnCurve(P, p) && OnCurve(S, p) && OnCurve(T, p) && T == Plus(S, P, p)
    ensures Neg(S, p) == Plus(Neg(T, p), P, p)
  {
    NegOnCurve(T, p);
    AddCommutes(S, P, p);
    AddOnCurve(Neg(T, p), P, p);
    hide *;
    Assoc(Neg(T, p), P, S, p);
    InverseIsNeg(Plus(Neg(T, p), P, p), S, p);
  }

  lemma {:induction false} TimesAddNat(m: int, n: nat, P: Pt, p: Pos)
    requires GroupLaw(p) && OnCurve(P, p)
    ensures Times(m + n, P, p) == Plus(Times(m, P, p), Times(n, P, p), p)
  {
    hide *;
    TimesOne(P, p);
    PlusO(Times(m, P, p), p);
    if n > 0 {
      TimesAddNat(m, n - 1, P, p);
      TimesSucc(m + n - 1, P, p);
      TimesSucc(n - 1, P, p);
      TimesOnCurve(m, P, p); TimesOnCurve(n - 1, P, p);
      Assoc(Times(m, P, p), Times(n - 1, P, p), P, p);
    }
  }

  lemma PlusO(U: Pt, p: Pos)
    ensures Plus(U, O, p) == U && Plus(O, U, p) == U
  {
  }

  lemma NegTimes(n: int, P: Pt, p: Pos)
    requires GroupLaw(p) && OnCurve(P, p)
    ensures Times(-n, P, p) == Neg(Times(n, P, p), p)
  {
    var k := if n >= 0 then n else -n;
    TimesAddNat(-k, k, P, p);
    assert Times(0, P, p) == O;
    TimesOnCurve(k, P, p); TimesOnCurve(-k, P, p);
    hide Times;
    AddCommutes(Times(k, P, p), Times(-k, P, p), p);
    InverseIsNeg(Times(-k, P, p), Times(k, P, p), p);
    InverseIsNeg(Times(k, P, p), Times(-k, P, p), p);
  }

  // (m + n) P = m P + n P for all integers.
  lemma TimesAdd(m: int, n: int, P: Pt, p: Pos)
    requires GroupLaw(p) && OnCurve(P, p)
    ensures Times(m + n, P, p) == Plus(Times(m, P, p), Times(n, P, p), p)
  {
    if n >= 0 {
      TimesAddNat(m, n, P, p);
    } else {
      var U, V, W := Times(m + n, P, p), Times(-n, P, p), Times(n, P, p);
      hide *;
      TimesAddNat(m + n, -n, P, p);
      NegTimes(-n, P, p);
      TimesOnCurve(m + n, P, p); TimesOnCurve(-n, P, p);
      NegOnCurve(V, p);
      PlusO(U, p);
      Assoc(U, V, W, p);
    }
  }

  lemma {:induction false} TimesTimesNat(m: nat, n: int, P: Pt, p: Pos)
    requires GroupLaw(p) && OnCurve(P, p)
    ensures Times(m, Times(n, P, p), p) == Times(m * n, P, p)
  {
    hide *;
    TimesOnCurve(n, P, p);
    TimesOne(P, p); TimesOne(Times(n, P, p), p);
    if m == 0 {
      assert m * n == 0;
    } else {
      TimesTimesNat(m - 1, n, P, p);
      TimesSucc(m - 1, Times(n, P, p), p);
      assert m * n == (m - 1) * n + n;
      TimesAdd((m - 1) * n, n, P, p);
    }
  }

  // m (n P) = (m n) P for all integers.
  lemma TimesTimes(m: int, n: int, P: Pt, p: Pos)
    requires GroupLaw(p) && OnCurve(P, p)
    ensures Times(m, Times(n, P, p), p) == Times(m * n, P, p)
  {
    TimesOnCurve(n, P, p);
    if m >= 0 {
      TimesTimesNat(m, n, P, p);
    } else {
      TimesTimesNat(-m, n, P, p);
      NegTimes(-m, Times(n, P, p), p);
      assert -m * n == -(m * n);
      NegTimes(-(m * n), P, p);
    }
  }

  lemma TimesOne(P: Pt, p: Pos)
    ensures Times(1, P, p) == P && Times(0, P, p) == O
  {
    assert TimesNat(1, P, p) == Plus(TimesNat(0, P, p), P, p);
  }

  lemma TimesTwo(n: int, P: Pt, p: Pos)
    requires GroupLaw(p) && OnCurve(P, p)
    ensures Times(2 * n, P, p) == Plus(Times(n, P, p), Times(n, P, p), p)
  {
    TimesAdd(n, n, P, p);
  }

  // ----- points of order q -----

  lemma OrderOf(k: int, P: Pt, q: Pos, p: Pos)
    requires HasOrder(P, q, p)
    ensures q > 1 && OnCurve(P, p) && (Times(k, P, p) == O <==> Cong(k, 0, q))
  {
  }

  lemma TimesEqual(i: int, j: int, P: Pt, q: Pos, p: Pos)
    requires GroupLaw(p) && HasOrder(P, q, p)
    ensures Times(i, P, p) == Times(j, P, p) <==> Cong(i, j, q)
  {
    hide *;
    OrderOf(i - j, P, q, p);
    CongSub(i, j, q);
    TimesOnCurve(i, P, p); TimesOnCurve(j, P, p);
    NegTimes(j, P, p);
    TimesAdd(i, -j, P, p);
    DifferenceIsO(Times(i, P, p), Times(j, P, p), p);
  }

  lemma TimesOpposite(i: int, j: int, P: Pt, q: Pos, p: Pos)
    requires GroupLaw(p) && HasOrder(P, q, p)
    ensures Times(i, P, p) == Neg(Times(j, P, p), p) <==> Cong(i + j, 0, q)
  {
    hide *;
    OrderOf(i + j, P, q, p);
    TimesOnCurve(i, P, p); TimesOnCurve(j, P, p);
    TimesAdd(i, j, P, p);
    SumIsO(Times(i, P, p), Times(j, P, p), p);
  }

  lemma SumIsO(U: Pt, V: Pt, p: Pos)
    requires GroupLaw(p) && OnCurve(U, p) && OnCurve(V, p)
    ensures Plus(U, V, p) == O <==> U == Neg(V, p)
  {
    if Plus(U, V, p) == O { InverseIsNeg(U, V, p); }
    NegOnCurve(V, p);
  }

  lemma DifferenceIsO(U: Pt, V: Pt, p: Pos)
    requires GroupLaw(p) && OnCurve(U, p) && OnCurve(V, p)
    ensures Plus(U, Neg(V, p), p) == O <==> U == V
  {
    NegOnCurve(V, p);
    if Plus(U, Neg(V, p), p) == O {
      InverseIsNeg(U, Neg(V, p), p);
      InverseIsNeg(V, Neg(V, p), p);
    }
  }

  // A point that q annihilates has order exactly q when q is prime.
  lemma PrimeOrder(P: Pt, q: Pos, p: Pos)
    requires GroupLaw(p) && OnCurve(P, p) && P != O && Prime(q) && Times(q, P, p) == O
    ensures HasOrder(P, q, p)
  {
    forall k: int ensures Times(k, P, p) == O <==> Cong(k, 0, q) {
      MultipleOfOrder(P, q, p, k);
    }
  }

  lemma TimesOfO(n: int, p: Pos)
    requires GroupLaw(p)
    ensures Times(n, O, p) == O
  {
    OIsOnCurve(p);
    TimesAdd(n, 1, O, p); TimesSucc(n, O, p);
    TimesOne(O, p);
    TimesTimes(n, 0, O, p);
    assert n * 0 == 0;
  }

  lemma MultipleOfOrder(P: Pt, q: Pos, p: Pos, k: int)
    requires GroupLaw(p) && OnCurve(P, p) && P != O && Prime(q) && Times(q, P, p) == O
    ensures Times(k, P, p) == O <==> Cong(k, 0, q)
  {
    TimesOfO(0, p);
    hide Times, Plus;
    if Cong(k, 0, q) {
      var m := CongElim(k, 0, q);
      TimesTimes(m, q, P, p);
      TimesOfO(m, p);
    } else if Times(k, P, p) == O {
      PrimeInvertible(k, q);
      var u :| IsInverse(k, u, q);
      ModIntro(1, 0, 1, q);
      var m := CongElim(k * u, 1, q);
      assert 1 == u * k + -m * q;
      TimesTimes(u, k, P, p); TimesOfO(u, p);
      TimesTimes(-m, q, P, p); TimesOfO(-m, p);
      TimesAdd(u * k, -m * q, P, p);
      TimesOne(P, p);
      AddOO(p);
    }
  }

  lemma AddOO(p: Pos)
    ensures Plus(O, O, p) == O
  {
  }
}
