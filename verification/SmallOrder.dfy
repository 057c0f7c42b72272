// What general_point_mul answers on a point of order three, where the order and
// the grouping of its additions show.
module SmallOrder {
  import opened NumberTheory
  import opened Powers
  import opened Bits
  import opened EllipticCurve
  import opened ExtensionGroup
  import opened GeneralCourse
  import opened MillerNorm

  // Every sum of multiples of it that are not O is twice the first.
  ghost predicate Doubling(A: Trace, B: Trace, p: Pos) {
    && Join(A, A, p) == B && Join(A, B, p) == B && Join(B, A, p) == A && Join(B, B, p) == A
    && Join(START, A, p) == A && Join(START, B, p) == B && Join(START, START, p) == START
  }

  lemma SumsOfThree(p: Pos)
    requires p > 2
    ensures Doubling(Trace(A2(ZERO, G(1, 0)), false), Trace(A2(ZERO, G(p - 1, 0)), false), p)
  {
    hide CodeSum;
    FlatSum(1, p - 1, 1, p); FlatSum(1, p - 1, p - 1, p); FlatSum(p - 1, 1, 1, p); FlatSum(p - 1, 1, p - 1, p);
    StartSum(A2(ZERO, G(1, 0)), p); StartSum(A2(ZERO, G(p - 1, 0)), p); StartSum(O2, p);
  }

  lemma StartSum(T: Pt2, p: Pos)
    ensures CodeSum(O2, T, p) == T
  {
    hide Chord2, Tangent2;
  }

  // Two points with abscissa 0 add to twice the first, by a flat tangent.
  lemma FlatSum(y: int, z: int, t: int, p: Pos)
    requires 0 < y < p && 0 < z < p && y + z == p && 0 < t < p
    ensures CodeSum(A2(ZERO, G(y, 0)), A2(ZERO, G(t, 0)), p) == A2(ZERO, G(z, 0))
  {
    hide Tangent2, Chord2;
    var S, T := A2(ZERO, G(y, 0)), A2(ZERO, G(t, 0));
    assert S.y != G(p - T.y.a, p - T.y.b);
    FlatDouble(y, z, p);
  }

  lemma FlatDouble(y: int, z: int, p: Pos)
    requires 0 <= z < p && y + z == p
    ensures Tangent2(A2(ZERO, G(y, 0)), p) == A2(ZERO, G(z, 0))
  {
    hide Quot2, Third2, Add, Mul, Scale;
    var S := A2(ZERO, G(y, 0));
    ScaleOfZero(3);
    MulZero(ZERO);
    FlatQuotient(Add(S.y, S.y), p);
    FlatThird(G(y, 0), z, p);
  }

  lemma FlatThird(y: Gauss, z: int, p: Pos)
    requires 0 <= z < p && y.a + z == p && y.b == 0
    ensures Third2(ZERO, y, ZERO, ZERO, p) == A2(ZERO, G(z, 0))
  {
    hide Rem, Mul;
    RemIs(0, 0, 0, p);
    RemIs(-y.a, -1, z, p);
    MulZero(ZERO);
    assert Sub(ZERO, ZERO) == ZERO && Sub(ZERO, y) == G(-y.a, 0);
  }

  lemma RemIs(x: int, k: int, r: int, p: Pos)
    requires 0 <= r < p && x == k * p + r
    ensures Rem(x, p) == r
  {
    ModIntro(x, k, r, p);
  }

  lemma FlatQuotient(d: Gauss, p: Pos)
    ensures Quot2(ZERO, d, p) == ZERO
  {
    ModIntro(0, 0, 0, p);
    hide Inv, Rem;
    var k := Inv(Norm(d), p);
    assert Mul(ZERO, Conj(d)) == ZERO && Scale(k, ZERO) == ZERO by { ScaleOfZero(k); }
  }

  // On (0, 1), whose order is three for every p > 3, the order of the operands and
  // the windows show: 3 and 37 times the point come out as twice the point, 17 and
  // 33 times as the point itself.
  lemma ProductThree(q: Pos, p: Pos)
    requires p > 2 && q > 37
    ensures var P, T := A2(ZERO, G(1, 0)), A2(ZERO, G(p - 1, 0));
            Product(3, P, q, p).at == T && Product(17, P, q, p).at == P && Product(33, P, q, p).at == P &&
            Product(37, P, q, p).at == T
  {
    hide Product, Doubling, Walked, BitLen;
    var P := A2(ZERO, G(1, 0));
    var A, B := Trace(P, false), Trace(A2(ZERO, G(p - 1, 0)), false);
    SumsOfThree(p);
    ProductBelow(3, P, q, p); ProductBelow(17, P, q, p); ProductBelow(33, P, q, p); ProductBelow(37, P, q, p);
    SlotsOfThree(P, A, B, p);
    Lengths();
    WalkThree(P, A, B, p); WalkSeventeen(P, A, B, p); WalkThirtyThree(P, A, B, p); WalkThirtySeven(P, A, B, p);
  }

  lemma Lengths()
    ensures BitLen(3) == 2 && BitLen(17) == 5 && BitLen(33) == 6 && BitLen(37) == 6
  {
    assert BitLen(2) == 2 && BitLen(4) == 3 && BitLen(8) == 4;
  }

  lemma ProductBelow(n: nat, P: Pt2, q: Pos, p: Pos)
    requires 0 < n < q && P.A2?
    ensures Product(n, P, q, p) == Walked(START, n, BitLen(n) - 1, P, p)
  {
    ModIntro(n, 0, n, q);
  }

  lemma SlotsOfThree(P: Pt2, A: Trace, B: Trace, p: Pos)
    requires Doubling(A, B, p) && A == Trace(P, false)
    ensures Slot(1, P, p) == A && Slot(3, P, p) == B && Slot(9, P, p) == A && Slot(17, P, p) == A
  {
    hide Join;
    assert Slot(2, P, p) == B && Slot(3, P, p) == B && Slot(5, P, p) == A && Slot(7, P, p) == B;
    assert Slot(9, P, p) == A && Slot(11, P, p) == B && Slot(13, P, p) == A && Slot(15, P, p) == B;
  }

  // The window from bit m down to bit l, given the bits there.
  lemma OneWindow(s: Trace, t: Trace, n: nat, m: nat, l: nat, j: nat, P: Pt2, p: Pos)
    requires Bit(n, m) == 1 && WindowEnd(n, m) == l && WindowBits(n, m, l) == j
    requires Join(Doubled(s, m - l + 1, p), Slot(j, P, p), p) == t
    ensures Walked(s, n, m, P, p) == Walked(t, n, l - 1, P, p)
  {
    hide Bit, WindowEnd, WindowBits, Doubled, Slot, Join, Walked;
    WalkedWindow(s, n, m, P, p);
  }

  lemma {:induction false} StartDoubled(A: Trace, B: Trace, k: nat, p: Pos)
    requires Doubling(A, B, p)
    ensures Doubled(START, k, p) == START
  {
    hide Join;
    if k > 0 { StartDoubled(A, B, k - 1, p); }
  }

  lemma DoubledOnce(s: Trace, p: Pos)
    ensures Doubled(s, 1, p) == Join(s, s, p)
  {
    hide Join;
    assert Doubled(s, 0, p) == s;
  }

  lemma WalkThree(P: Pt2, A: Trace, B: Trace, p: Pos)
    requires Doubling(A, B, p) && Slot(3, P, p) == B
    ensures Walked(START, 3, 1, P, p) == B
  {
    hide Join, Slot, Walked, Doubled;
    assert Shift(3, 1) == 1 && Shift(3, 0) == 3;
    StartDoubled(A, B, 2, p);
    OneWindow(START, B, 3, 1, 0, 3, P, p);
    WalkedDone(B, 3, -1, P, p);
  }

  lemma WalkSeventeen(P: Pt2, A: Trace, B: Trace, p: Pos)
    requires Doubling(A, B, p) && Slot(17, P, p) == A
    ensures Walked(START, 17, 4, P, p) == A
  {
    hide Join, Slot, Walked, Doubled;
    BitsOf(17, 8, 4, 2, 1);
    assert WindowBits(17, 4, 4) == 1 && WindowBits(17, 4, 3) == 2 && WindowBits(17, 4, 2) == 4;
    assert WindowBits(17, 4, 1) == 8 && WindowBits(17, 4, 0) == 17;
    StartDoubled(A, B, 5, p);
    OneWindow(START, A, 17, 4, 0, 17, P, p);
    WalkedDone(A, 17, -1, P, p);
  }

  lemma BitsOf(n: nat, n1: nat, n2: nat, n3: nat, n4: nat)
    requires n / 2 == n1 && n1 / 2 == n2 && n2 / 2 == n3 && n3 / 2 == n4
    ensures Shift(n, 0) == n && Shift(n, 1) == n1 && Shift(n, 2) == n2 && Shift(n, 3) == n3 && Shift(n, 4) == n4
    ensures Shift(n, 5) == n4 / 2
  {
  }

  lemma WalkThirtyThree(P: Pt2, A: Trace, B: Trace, p: Pos)
    requires Doubling(A, B, p) && Slot(1, P, p) == A
    ensures Walked(START, 33, 5, P, p) == A
  {
    hide Join, Slot, Walked, Doubled;
    BitsOf(33, 16, 8, 4, 2);
    assert WindowBits(33, 5, 5) == 1 && WindowBits(33, 0, 0) == 1;
    StartDoubled(A, B, 1, p);
    OneWindow(START, A, 33, 5, 5, 1, P, p);
    WalkedBit(A, 33, 4, P, p); WalkedBit(B, 33, 3, P, p); WalkedBit(A, 33, 2, P, p); WalkedBit(B, 33, 1, P, p);
    DoubledOnce(A, p);
    OneWindow(A, A, 33, 0, 0, 1, P, p);
    WalkedDone(A, 33, -1, P, p);
  }

  lemma WalkThirtySeven(P: Pt2, A: Trace, B: Trace, p: Pos)
    requires Doubling(A, B, p) && Slot(1, P, p) == A && Slot(9, P, p) == A
    ensures Walked(START, 37, 5, P, p) == B
  {
    hide Join, Slot, Walked, Doubled;
    BitsOf(37, 18, 9, 4, 2);
    assert WindowBits(37, 5, 5) == 1 && WindowBits(37, 5, 4) == 2 && WindowBits(37, 5, 3) == 4;
    assert WindowBits(37, 5, 2) == 9 && WindowBits(37, 0, 0) == 1;
    StartDoubled(A, B, 4, p);
    OneWindow(START, A, 37, 5, 2, 9, P, p);
    WalkedBit(A, 37, 1, P, p);
    DoubledOnce(B, p);
    OneWindow(B, B, 37, 0, 0, 1, P, p);
    WalkedDone(B, 37, -1, P, p);
  }
}
