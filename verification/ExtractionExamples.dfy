// Threshold extraction: inputs for which all its hypotheses hold, and shares that
// point_add combines wrongly.
module ExtractionExamples {
  import opened NumberTheory
  import opened Powers
  import opened Bits
  import opened Naf
  import opened EllipticCurve
  import opened PointGroup
  import opened Curves
  import opened Windows
  import opened WindowMul
  import opened Shamir
  import opened ByteStrings
  import opened Serial
  import opened TonelliShanks
  import opened HashToPoint
  import opened IdentityPoint
  import opened Threshold
  import opened KeyShares
  import opened Instance

  // Everything that ThresholdExtraction assumes holds for p = 11, q = 3, one
  // share, the master 1 and the identity with digest 17.
  lemma ExtractionEleven(c: Curve)
    requires c.Valid() && c.p == 11 && c.q == 3
    ensures Extractable([1], [1], [1], [17], c, 3)
  {
    hide Associative, Prime, HasOrder, Hashed, MulOutcome, Nodes, Weight;
    GroupEleven();
    OrderThree();
    PrimeThree();
    HashedSeventeen();
    SmallMultipliers();
    SingleWeight();
    assert Big([1]) == 1 by { assert [1][..0] == []; }
  }

  lemma HashedSeventeen()
    ensures Hashed([17], 11) == A(0, 1)
  {
    assert Big([17]) == 17 by { assert [17][..0] == []; }
    assert BitLen(17) == 5 && BitLen(11) == 4;
    assert StretchedNat(17, 1, 4) == 17;
    TrimmedSeventeen();
    CubeRootOfZero();
  }

  lemma TrimmedSeventeen()
    ensures Trimmed(17, 11) == 1
  {
    TopBit(17);
    SixteenIsPower();
    TrimmedOnce(17, 11);
    TrimmedOnce(1, 11);
  }

  lemma SixteenIsPower()
    ensures BitLen(17) == 5 && P2(4) == 16
  {
    assert P2(0) == 1 && P2(1) == 2 && P2(2) == 4 && P2(3) == 8;
  }

  lemma CubeRootOfZero()
    ensures CubeRootOf(0, 11) == 0
  {
    assert IPow(0, 7) == 0;
  }

  lemma SmallMultipliers()
    ensures Multiplier(1, 3) && Multiplier(4, 3)
  {
    hide Rest, NafDigit, Shift, Walk;
    SingleWindow(1, 3);
    RestZero(4);
    NextRest(4, 0, 4); NextRest(4, 1, 2); NextRest(4, 2, 1); NextRest(4, 3, 0);
    assert BitLen(4) == 3;
    assert Windows.Low(4, 0, 2) == Windows.Low(4, 1, 2) == 2;
    WalkDigit(4, 1, 3); WalkDigit(4, 0, 3);
    EmptyWalk(4, -1, 3);
  }

  lemma SingleWeight()
    ensures Weights([1], 3) == [1] && Nodes([1], 3)
  {
  }

  // On points of order 13 the shares 3, 3 and 5 of the master 5, the values of
  // 5 + 10 x + x^2 at 1, 2 and 3, are combined to 23 = 10 in place of 5: the first
  // two weighted shares are opposite, and point_add doubles.
  lemma CombinationFails(master: Bytes)
    requires Big(master) == 5
    ensures var xs := [1, 2, 3];
            var ys := ChosenValues(master, [10, 1], xs, 13);
            var ws := Weights(xs, 13);
            && Prime(13) && Multiplier(5, 13) && Nodes(xs, 13) && Summable(ws, ys, 13)
            && (forall i :: 0 <= i < 3 ==> Multiplier(ys[i], 13) && Multiplier(ws[i], 13))
            && CodeDot(ws, ys, 13) == 23 && !Cong(CodeDot(ws, ys, 13), 5, 13)
  {
    hide Multiplier, Weight, Weights, CodeDot;
    ThreeWeights();
    ThreeValues(master);
    ThirteenMultipliers();
    ThreeTerms();
  }

  lemma ThreeWeights()
    ensures Prime(13) && Nodes([1, 2, 3], 13) && Weights([1, 2, 3], 13) == [3, 10, 1]
  {
    assert Prime(13) && Nodes([1, 2, 3], 13);
    hide Weight, Prime, Nodes;
    FirstWeight(); SecondWeight(); ThirdWeight();
  }

  lemma FirstWeight()
    ensures Weight([1, 2, 3], 0, 13) == 3
  {
    assert Without([1, 2, 3], 0) == [2, 3] && Minus([2, 3], 1) == [1, 2];
    hide Inv, Prod;
    TwoFactors(2, 3); TwoFactors(1, 2);
    InverseOf(2, 7);
  }

  lemma SecondWeight()
    ensures Weight([1, 2, 3], 1, 13) == 10
  {
    assert Without([1, 2, 3], 1) == [1, 3] && Minus([1, 3], 2) == [-1, 1];
    hide Inv, Prod;
    TwoFactors(1, 3); TwoFactors(-1, 1);
    InverseOf(-1, 12);
  }

  lemma ThirdWeight()
    ensures Weight([1, 2, 3], 2, 13) == 1
  {
    assert Without([1, 2, 3], 2) == [1, 2] && Minus([1, 2], 3) == [-2, -1];
    hide Inv, Prod;
    TwoFactors(1, 2); TwoFactors(-2, -1);
    InverseOf(2, 7);
  }

  lemma TwoFactors(a: int, b: int)
    ensures Prod([a, b]) == a * b
  {
    assert [a, b][..1] == [a] && [a][..0] == [];
    assert Prod([a]) == 1 * a;
  }

  lemma InverseOf(a: int, u: int)
    requires 0 <= u < 13 && (a * u) % 13 == 1 && -1 <= a <= 2 && a != 0
    ensures Inv(a, 13) == u
  {
    assert !Cong(a, 0, 13);
    InvCorrect(a, 13);
    InverseUnique(a, u, Inv(a, 13), 13);
    CongSmall(u, Inv(a, 13), 13);
  }

  lemma ThreeValues(master: Bytes)
    requires Big(master) == 5
    ensures ChosenValues(master, [10, 1], [1, 2, 3], 13) == [3, 3, 5]
  {
    Quadratic(5, 10, 1, 1); Quadratic(5, 10, 1, 2); Quadratic(5, 10, 1, 3);
    assert [Big(master)] + [10, 1] == [5, 10, 1];
  }

  lemma Quadratic(a: int, b: int, c: int, x: int)
    ensures Eval([a, b, c], x) == (c * x + b) * x + a
  {
    assert [a, b, c][1..] == [b, c] && [b, c][1..] == [c] && [c][1..] == [];
    assert Eval([c], x) == c && Eval([b, c], x) == c * x + b;
  }

  lemma ThirteenMultipliers()
    ensures Multiplier(1, 13) && Multiplier(3, 13) && Multiplier(5, 13) && Multiplier(10, 13)
  {
    hide Rest, NafDigit, Shift, Walk;
    SingleWindow(1, 13); SingleWindow(3, 13); SingleWindow(5, 13);
    RestZero(10);
    NextRest(10, 0, 10); NextRest(10, 1, 5); NextRest(10, 2, 2); NextRest(10, 3, 1); NextRest(10, 4, 0);
    assert BitLen(10) == 4;
    assert Windows.Low(10, 0, 3) == Windows.Low(10, 1, 3) == 1;
    WalkDigit(10, 0, 13);
    EmptyWalk(10, -1, 13);
  }

  lemma ThreeTerms()
    ensures CodeDot([3, 10, 1], [3, 3, 5], 13) == 23
  {
    var u, v := [3, 10, 1], [3, 3, 5];
    assert u[..2] == [3, 10] && v[..2] == [3, 3] && [3, 10][..1] == [3] && [3, 3][..1] == [3] && [3][..0] == [];
    assert CodeDot([3], [3], 13) == 9;
    assert CodeDot([3, 10], [3, 3], 13) == 18;
  }
}
