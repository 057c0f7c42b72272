// map_byte_string_to_point: the point of order q that stands for an identity.
module IdentityPoint {
  import opened NumberTheory
  import opened Bits
  import opened EllipticCurve
  import opened PointGroup
  import opened Fp2
  import opened Curves
  import opened Windows
  import opened WindowMul
  import opened ByteStrings
  import opened Serial
  import opened HashToPoint

  // The ordinate comes from the digest and the abscissa is its cube root.
  function HashedOrdinate(digest: Bytes, p: Pos): nat {
    Trimmed(StretchedNat(Big(digest), 1, BitLen(p)), p)
  }

  // The point they stand for; an ordinate p stands for 0.
  function Hashed(digest: Bytes, p: Pos): Pt
    requires p % 3 == 2
  {
    var y := HashedOrdinate(digest, p);
    A(CubeRootOf(y * y - 1, p), if y == p then 0 else y)
  }

  // Every digest gives a point of E/F_p.
  lemma HashedOnCurve(digest: Bytes, p: Pos)
    requires Prime(p) && p % 3 == 2
    ensures OnCurve(Hashed(digest, p), p) && Hashed(digest, p).A?
    ensures Cong(Hashed(digest, p).y, HashedOrdinate(digest, p), p)
  {
    hide Trimmed;
    var y: int := HashedOrdinate(digest, p);
    var v := Rem(y * y - 1, p);
    TrimmedMeets(StretchedNat(Big(digest), 1, BitLen(p)), p);
    RootOnCurve(y, v, CubeRootOf(y * y - 1, p), (2 * p - 1) / 3, p);
    if y == p {
      CongIntro(p, 0, 1, p);
      CongMul(p, 0, p, 0, p);
    }
  }

  // The ordinate is p, which is not canonical, exactly for the digests whose
  // stretched bits end in those of p.
  lemma OrdinateIsModulus(digest: Bytes, p: Pos)
    ensures var bits := StretchedNat(Big(digest), 1, BitLen(p));
            HashedOrdinate(digest, p) == p <==> HashToPoint.Low(bits, BitLen(p)) == p
  {
    hide BitLen, Trimmed;
    TrimmedIsLimit(StretchedNat(Big(digest), 1, BitLen(p)), p);
  }

  // The digest that spells p is one of them.
  lemma ModulusDigest(p: Pos)
    ensures HashedOrdinate(MpzBytes(p), p) == p
  {
    MpzRoundTrip(p);
  }

  // It goes to a point of order two, on which point_mul never gets an even
  // cofactor right, and the cofactor is even whenever q is odd.
  lemma FailingDigest(p: Pos, q: Pos)
    requires GroupLaw(p) && p % 3 == 2 && q % 2 == 1 && (p + 1) % q == 0
    ensures HasOrder(Hashed(MpzBytes(p), p), 2, p)
    ensures (p + 1) / q > 0 && MulOutcome((p + 1) / q, 2) != Right
  {
    hide MulOutcome, Associative, Hashed, Times;
    var P := Hashed(MpzBytes(p), p);
    var k := (p + 1) / q;
    PrimeOdd(p);
    HashedOnCurve(MpzBytes(p), p);
    ModulusPoint(p);
    OrdinateZero(P, p);
    EvenCofactor(k, p, q);
    if MulOutcome(k, 2) == Right { OutcomeFinite(k, 2); }
  }

  lemma ModulusPoint(p: Pos)
    requires p % 3 == 2
    ensures Hashed(MpzBytes(p), p).A? && Hashed(MpzBytes(p), p).y == 0
  {
    hide HashedOrdinate;
    ModulusDigest(p);
  }

  // A point with ordinate 0 has order two.
  lemma OrdinateZero(P: Pt, p: Pos)
    requires GroupLaw(p) && OnCurve(P, p) && P.A? && P.y == 0
    ensures HasOrder(P, 2, p)
  {
    assert Plus(P, P, p) == O by { ModIntro(0, 0, 0, p); }
    hide Associative, Times, Plus, OnCurve;
    TimesOne(P, p);
    TimesSucc(1, P, p);
    assert Prime(2);
    PrimeOrder(P, 2, p);
  }

  lemma EvenCofactor(k: int, p: Pos, q: Pos)
    requires k == (p + 1) / q && (p + 1) % q == 0 && p % 2 == 1 && q % 2 == 1
    ensures k > 0 && Cong(k, 0, 2)
  {
    DivisorAtMost(p + 1, q);
    assert p + 1 == q * k;
    if k % 2 == 1 { OddTimesOdd(q, k); }
  }

  // What the curve of the library meets.
  ghost predicate Usable(c: Curve) { c.Valid() && Field(c.p) && c.p % 3 == 2 && (c.p + 1) % c.q == 0 }

  // (p + 1) / q times the hashed point, for every digest.  point_mul never
  // answers O, so the loop over further ordinates ends in its first pass.
  method MapToPoint(d: Point, digest: Bytes, c: Curve, ghost r: Pos)
    requires d.x != d.y && Usable(c)
    modifies d, d.x, d.y
    ensures !d.infinity && Canonical(d.x.Val(), c.p) && Canonical(d.y.Val(), c.p)
    ensures c.p1onq > 0
    ensures Ordered(Hashed(digest, c.p), r, c.p) && MulOutcome(c.p1onq, r) == Right ==>
              d.Special(c.p) && d.Real() == Times(c.p1onq, Hashed(digest, c.p), c.p)
    ensures Ordered(Hashed(digest, c.p), r, c.p) && MulOutcome(c.p1onq, r) == Right &&
            Prime(c.q) && (c.p + 1) % r == 0 ==>
              HasOrder(d.Real(), c.q, c.p)
  {
    hide Times, Associative, Plus, HasOrder, OnCurve, Prime, Trimmed, Rem, MulOutcome, Canonical, CubeRootOf,
         StretchedNat, BitLen;
    ghost var P := Hashed(digest, c.p);
    ghost var right := Ordered(P, r, c.p) && MulOutcome((c.p + 1) / c.q, r) == Right;
    DivisorAtMost(c.p + 1, c.q);
    var y: int := MpzFromHash(c.p, digest);
    var i := 1;
    var again := true;
    while again
      invariant again ==> y == HashedOrdinate(digest, c.p)
      invariant !again ==> !d.infinity && Canonical(d.x.Val(), c.p) && Canonical(d.y.Val(), c.p)
      invariant !again && right ==> d.Special(c.p) && d.Real() == Times(c.p1onq, P, c.p)
      decreases again
    {
      TakeOrdinate(d, y, c, P, r);
      again := d.infinity;
      if again {
        y := i;
        i := i + 1;
      }
    }
    if right && Prime(c.q) && (c.p + 1) % r == 0 {
      OrderQ(c.p1onq, P, d.Real(), r, c.q, c.p);
    }
  }

  // One pass of the loop.
  method TakeOrdinate(d: Point, y: int, c: Curve, ghost P: Pt, ghost r: Pos)
    requires d.x != d.y && Usable(c) && c.p1onq > 0
    requires P == A(CubeRootOf(y * y - 1, c.p), if y == c.p then 0 else y)
    modifies d, d.x, d.y
    ensures !d.infinity && Canonical(d.x.Val(), c.p) && Canonical(d.y.Val(), c.p)
    ensures Ordered(P, r, c.p) && MulOutcome(c.p1onq, r) == Right ==>
              d.Special(c.p) && d.Real() == Times(c.p1onq, P, c.p)
  {
    hide Times, Associative, Plus, HasOrder, OnCurve, Prime, Rem, MulOutcome, Canonical, CubeRootOf;
    var x := XFromY(y, c);
    d.SetReal(x, y);
    ghost var z := PointMul(d, c.p1onq, d, c.p, r);
  }

  // p + 1 annihilates the point, so q annihilates its (p + 1) / q-th multiple.
  lemma OrderQ(k: nat, P: Pt, T: Pt, r: Pos, q: Pos, p: Pos)
    requires GroupLaw(p) && HasOrder(P, r, p) && (p + 1) % r == 0 && Prime(q) && (p + 1) % q == 0
    requires k == (p + 1) / q && T == Times(k, P, p) && T != O
    ensures HasOrder(T, q, p)
  {
    hide Times, Associative, Plus, OnCurve, Cong, Prime;
    OrderOf(q * k, P, r, p);
    TimesOnCurve(k, P, p);
    TimesTimes(q, k, P, p);
    assert q * k == p + 1;
    CongDiff(p + 1, 0, r);
    PrimeOrder(T, q, p);
  }
}
