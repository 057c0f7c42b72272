// Integers, elements of F_p^2 and points as byte strings (ibe_lib.c).
module Serial {
  import opened NumberTheory
  import opened Powers
  import opened Bits
  import opened Fp2
  import opened Curves
  import opened ByteStrings

  // The number a string stands for, most significant byte first.
  function Big(s: Bytes): nat {
    if s == [] then 0 else Big(s[..|s| - 1]) * 256 + s[|s| - 1]
  }

  // The lowest n bytes of x.
  function Raw(x: nat, n: nat): (s: Bytes)
    ensures |s| == n
  {
    if n == 0 then [] else Raw(x / 256, n - 1) + [x % 256]
  }

  // mympz_sizeinbytes
  function Size(x: nat): nat { (BitLen(x) + 7) / 8 }

  function MpzBytes(x: nat): Bytes { Raw(x, Size(x)) }

  // The least positive number of bytes that x fits into.
  method SizeInBytes(x: nat) returns (i: nat)
    ensures i == Size(x)
    ensures i >= 1 && x < Pow256(i) && forall n: nat :: 1 <= n && x < Pow256(n) ==> i <= n
  {
    FitsInSize(x);
    SizeLeast(x);
    var n := BitLen(x);
    i := n / 8;
    if n % 8 != 0 { i := i + 1; }
  }

  // mympz_out_raw, from the last byte backwards.
  method OutRaw(x: nat, c: array<Byte>, n: nat)
    requires n <= c.Length
    modifies c
    ensures c[..n] == Raw(x, n)
  {
    var z := x;
    var i := n - 1;
    while i >= 0
      invariant -1 <= i < n
      invariant Raw(x, n) == Raw(z, i + 1) + c[i + 1..n]
    {
      ghost var rest := c[i + 1..n];
      c[i] := z % 256;
      assert c[i..n] == [c[i]] + rest;
      z := z / 256;
      i := i - 1;
    }
  }

  // mympz_inp_raw
  method InpRaw(c: Bytes) returns (z: nat)
    ensures z == Big(c)
  {
    z := 0;
    var i := 0;
    while i < |c|
      invariant 0 <= i <= |c| && z == Big(c[..i])
    {
      assert c[..i + 1][..i] == c[..i];
      z := z * 256 + c[i];
      i := i + 1;
    }
    assert c[..|c|] == c;
  }

  // byte_string_set_mpz: the shortest string that denotes x, and [0] for zero.
  method SetMpz(x: nat) returns (bs: Bytes)
    ensures bs == MpzBytes(x)
    ensures Big(bs) == x && |bs| >= 1 && (|bs| > 1 ==> bs[0] != 0)
  {
    MpzRoundTrip(x);
    FirstByte(x);
    hide Size, Big;
    var i := SizeInBytes(x);
    var data := new Byte[i];
    OutRaw(x, data, i);
    assert data[..] == data[..i];
    bs := data[..];
  }

  // ----- the conversions invert each other -----

  function Pow256(n: nat): nat { if n == 0 then 1 else 256 * Pow256(n - 1) }

  lemma DivBound(x: nat, u: nat)
    requires x < 256 * u
    ensures x / 256 < u
  {
  }

  lemma {:induction false} BigOfRaw(x: nat, n: nat)
    requires x < Pow256(n)
    ensures Big(Raw(x, n)) == x
  {
    if n > 0 {
      DivBound(x, Pow256(n - 1));
      BigOfRaw(x / 256, n - 1);
      assert Raw(x, n)[..n - 1] == Raw(x / 256, n - 1);
    }
  }

  lemma {:induction false} RawOfBig(s: Bytes)
    ensures Raw(Big(s), |s|) == s
  {
    if s != [] {
      var t, b := s[..|s| - 1], s[|s| - 1];
      RawOfBig(t);
      assert (Big(t) * 256 + b) / 256 == Big(t) && (Big(t) * 256 + b) % 256 == b;
      assert s == t + [b];
    }
  }

  lemma {:induction false} BitLenBound(x: nat)
    ensures x < P2(BitLen(x)) && (x > 0 ==> P2(BitLen(x) - 1) <= x)
  {
    P2Grows(0, 1);
    assert P2(0) == 1;
    if x >= 2 {
      BitLenBound(x / 2);
      P2Positive(BitLen(x / 2));
      P2Positive(BitLen(x / 2) - 1);
    } else {
      P2Positive(0);
    }
  }

  lemma {:induction false} Pow256Is(n: nat)
    ensures Pow256(n) == P2(8 * n)
  {
    if n > 0 {
      Pow256Is(n - 1);
      var m := 8 * n - 8;
      P2Positive(m); P2Positive(m + 1); P2Positive(m + 2); P2Positive(m + 3);
      P2Positive(m + 4); P2Positive(m + 5); P2Positive(m + 6); P2Positive(m + 7);
      hide IPow;
      assert m + 8 == 8 * n;
    }
  }

  lemma FitsInSize(x: nat)
    ensures x < Pow256(Size(x))
  {
    BitLenBound(x);
    Pow256Is(Size(x));
    if BitLen(x) < 8 * Size(x) { P2Grows(BitLen(x), 8 * Size(x)); }
  }

  // No string of fewer bytes denotes x.
  lemma SizeLeast(x: nat)
    ensures Size(x) >= 1
    ensures forall n: nat :: 1 <= n && x < Pow256(n) ==> Size(x) <= n
  {
    BitLenBound(x);
    forall n: nat | 1 <= n && x < Pow256(n) ensures Size(x) <= n {
      Pow256Is(n);
      if BitLen(x) > 8 * n {
        assert x > 0;
        P2Monotone(8 * n, BitLen(x) - 1);
      }
    }
  }

  lemma P2Monotone(i: nat, j: nat)
    requires i <= j
    ensures P2(i) <= P2(j)
  {
    if i < j { P2Grows(i, j); }
  }

  // Byte k counts from the most significant one.
  lemma {:induction false} RawAt(x: nat, n: nat, k: nat)
    requires k < n
    ensures Pow256(n - 1 - k) > 0 && Raw(x, n)[k] == x / Pow256(n - 1 - k) % 256
  {
    Pow256Positive(n - 1 - k);
    if k < n - 1 {
      RawAt(x / 256, n - 1, k);
      DivTwice(x, Pow256(n - 2 - k));
    }
  }

  lemma {:induction false} Pow256Positive(n: nat)
    ensures Pow256(n) > 0
  {
    if n > 0 { Pow256Positive(n - 1); }
  }

  lemma DivTwice(x: nat, u: Pos)
    ensures x / 256 / u == x / (256 * u)
  {
    var d := x / 256 / u;
    var r, t := x / 256 % u, x % 256;
    assert x == 256 * (d * u + r) + t;
    assert 256 * (d * u + r) + t == d * (256 * u) + (256 * r + t);
    ModIntro(x, d, 256 * r + t, 256 * u);
  }

  // Zero is one zero byte, and every other number starts with a non-zero byte.
  lemma FirstByte(x: nat)
    ensures |MpzBytes(x)| == Size(x) >= 1
    ensures if x == 0 then MpzBytes(x) == [0] else MpzBytes(x)[0] != 0
  {
    FitsInSize(x);
    SizeLeast(x);
    var n := Size(x);
    if x == 0 {
      assert BitLen(0) == 1;
      assert Raw(0, 0) == [];
    } else {
      RawAt(x, n, 0);
      var u := Pow256(n - 1);
      LeadingByte(x, u);
    }
  }

  lemma LeadingByte(x: nat, u: Pos)
    requires u <= x < 256 * u
    ensures 0 < x / u % 256
  {
    DivMod(x, u);
    assert 0 < x / u < 256;
  }

  lemma MpzRoundTrip(x: nat)
    ensures Big(MpzBytes(x)) == x
  {
    FitsInSize(x);
    BigOfRaw(x, Size(x));
  }

  // Residues are no longer than the modulus.
  lemma SizeGrows(x: nat, y: nat)
    requires x <= y
    ensures |MpzBytes(x)| == Size(x) <= Size(y)
  {
    BitLenMonotone(x, y);
  }

  // ----- F_p^2 and points -----

  datatype Coords = Coords(x: Gauss, y: Gauss)

  predicate NonNegative(x: Gauss) { x.a >= 0 && x.b >= 0 }

  function Fp2Bytes(x: Gauss): Bytes
    requires NonNegative(x)
  {
    Encode([MpzBytes(x.a), MpzBytes(x.b)])
  }

  function PointBytes(P: Coords): Bytes
    requires NonNegative(P.x) && NonNegative(P.y)
  {
    Encode([Fp2Bytes(P.x), Fp2Bytes(P.y)])
  }

  method SetFp2(x: Elem) returns (bs: Bytes)
    requires NonNegative(x.Val())
    ensures bs == Fp2Bytes(x.Val()) == Encode([MpzBytes(x.a), MpzBytes(x.b)])
  {
    var bs1 := SetMpz(x.a);
    var bs2 := SetMpz(x.b);
    bs := Join(bs1, bs2);
  }

  // The infinity flag is not written.
  method SetPoint(P: Point) returns (bs: Bytes)
    requires NonNegative(P.x.Val()) && NonNegative(P.y.Val())
    ensures bs == PointBytes(Coords(P.x.Val(), P.y.Val()))
    ensures bs == Encode([Encode([MpzBytes(P.x.a), MpzBytes(P.x.b)]), Encode([MpzBytes(P.y.a), MpzBytes(P.y.b)])])
  {
    var bs1 := SetFp2(P.x);
    var bs2 := SetFp2(P.y);
    bs := Join(bs1, bs2);
  }

  ghost predicate Storable(x: Gauss) {
    NonNegative(x) && |MpzBytes(x.a)| < 65536 && |MpzBytes(x.b)| < 65536
  }

  ghost predicate StorablePoint(P: Coords) {
    Storable(P.x) && Storable(P.y) && |Fp2Bytes(P.x)| < 65536 && |Fp2Bytes(P.y)| < 65536
  }

  // What a string stands for, however it was made.
  ghost function Fp2Of(bs: Bytes): Gauss {
    G(Big(Halves(bs).0), Big(Halves(bs).1))
  }

  ghost function PointOf(bs: Bytes): Coords {
    Coords(Fp2Of(Halves(bs).0), Fp2Of(Halves(bs).1))
  }

  method Fp2From(x: Elem, bs: Bytes)
    modifies x
    ensures x.Val() == Fp2Of(bs) && x.a == Big(Halves(bs).0) && x.b == Big(Halves(bs).1)
  {
    var bs1, bs2 := Split(bs);
    x.a := InpRaw(bs1);
    x.b := InpRaw(bs2);
  }

  // The infinity flag keeps its old value.
  method PointFrom(P: Point, bs: Bytes)
    requires P.x != P.y
    modifies P.x, P.y
    ensures Coords(P.x.Val(), P.y.Val()) == PointOf(bs)
    ensures P.x.Val() == Fp2Of(Halves(bs).0) && P.y.Val() == Fp2Of(Halves(bs).1)
  {
    var bs1, bs2 := Split(bs);
    Fp2From(P.x, bs1);
    Fp2From(P.y, bs2);
  }

  // Reading undoes writing.
  lemma Fp2Recovered(x: Gauss)
    requires Storable(x)
    ensures Fp2Of(Fp2Bytes(x)) == x
  {
    hide Encode, MpzBytes, Halves, Big;
    HalvesOfPair(MpzBytes(x.a), MpzBytes(x.b));
    MpzRoundTrip(x.a); MpzRoundTrip(x.b);
  }

  lemma PointRecovered(P: Coords)
    requires StorablePoint(P)
    ensures PointOf(PointBytes(P)) == P
  {
    hide Encode, Halves, Fp2Of;
    HalvesOfPair(Fp2Bytes(P.x), Fp2Bytes(P.y));
    Fp2Recovered(P.x); Fp2Recovered(P.y);
  }

  // Every canonical point is storable when p is below 16 thousand bytes.
  lemma CanonicalStorable(P: Coords, p: Pos)
    requires Canonical(P.x, p) && Canonical(P.y, p) && Size(p) <= 16000
    ensures StorablePoint(P) && |PointBytes(P)| < 65536
  {
    SizeGrows(P.x.a, p); SizeGrows(P.x.b, p); SizeGrows(P.y.a, p); SizeGrows(P.y.b, p);
    PairLength(MpzBytes(P.x.a), MpzBytes(P.x.b));
    PairLength(MpzBytes(P.y.a), MpzBytes(P.y.b));
    PairLength(Fp2Bytes(P.x), Fp2Bytes(P.y));
  }

  lemma PairLength(u: Bytes, v: Bytes)
    ensures |Encode([u, v])| == 6 + |u| + |v|
  {
    var a: seq<Bytes> := [u, v];
    assert a[..1] == [u] && a[..1][..0] == [];
    assert Concat([u]) == u by { assert [u][..0] == []; assert Concat([]) == []; }
    assert Concat(a) == u + v;
    assert |Headers(a)| == 4;
  }

  // The string determines the coordinates.
  lemma PointRoundTrip(P: Coords, Q: Coords)
    requires StorablePoint(P) && StorablePoint(Q) && PointBytes(P) == PointBytes(Q)
    ensures P == Q
  {
    PointRecovered(P);
    PointRecovered(Q);
  }
}
