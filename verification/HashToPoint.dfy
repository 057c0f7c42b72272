// From strings to points: mympz_from_hash, x_from_y, the cube root of unity and
// the map Phi that leaves E/F_p.
module HashToPoint {
  import opened NumberTheory
  import opened Powers
  import opened Bits
  import opened Fp2
  import opened Curves
  import opened ScalarMul
  import opened Closure
  import opened TonelliShanks
  import opened ByteStrings
  import opened Serial

  // ----- cube roots -----

  lemma Cube(x: int)
    ensures IPow(x, 3) == x * x * x
  {
    IPowAdd(x, 2, 1);
    ISmall(x);
  }

  // For p = 2 mod 3 the power (2p - 1) / 3 is the cube root.
  lemma CubeRoot(v: int, p: Pos)
    requires Prime(p) && p % 3 == 2
    ensures Cong(IPow(IPow(v, (2 * p - 1) / 3), 3), v, p)
  {
    var e: nat := (2 * p - 1) / 3;
    IPowPow(v, e, 3);
    assert e * 3 == (p - 1) + p;
    hide IPow;
    IPowAdd(v, p - 1, p);
    Fermat(v, p);
    if Cong(v, 0, p) {
      CongMul(IPow(v, p - 1), IPow(v, p - 1), IPow(v, p), 0, p);
      assert IPow(v, p - 1) * 0 == 0;
    } else {
      CongMul(IPow(v, p - 1), 1, IPow(v, p), v, p);
    }
  }

  // Cubing is injective, so the root is the only one.
  lemma CubesDiffer(x: int, z: int, p: Pos)
    requires Prime(p) && p % 3 == 2 && Cong(x * x * x, z * z * z, p)
    ensures Cong(x, z, p)
  {
    var e: nat := (2 * p - 1) / 3;
    CubeRoot(x, p); CubeRoot(z, p);
    IPowPow(x, e, 3); IPowPow(x, 3, e); IPowPow(z, e, 3); IPowPow(z, 3, e);
    Cube(x); Cube(z);
    hide IPow;
    CongPow(x * x * x, z * z * z, e, p);
    assert e * 3 == 3 * e;
  }

  // The canonical cube root of v for p = 2 mod 3.
  function CubeRootOf(v: int, p: Pos): int
    requires p % 3 == 2
  {
    PowMod(Rem(v, p), (2 * p - 1) / 3, p)
  }

  method XFromY(y: int, c: Curve) returns (x: int)
    requires c.Valid() && Prime(c.p) && c.p % 3 == 2
    ensures x == CubeRootOf(y * y - 1, c.p)
    ensures 0 <= x < c.p && Cong(y * y, x * x * x + 1, c.p)
    ensures forall z :: 0 <= z < c.p && Cong(y * y, z * z * z + 1, c.p) ==> z == x
  {
    hide Rem, IPow;
    x := y * y;
    x := x - 1;
    x := Rem(x, c.p);
    ghost var v := x;
    x := PowMod(x, c.cbrtpwr, c.p);
    RootOnCurve(y, v, x, c.cbrtpwr, c.p);
    forall z | 0 <= z < c.p && Cong(y * y, z * z * z + 1, c.p) ensures z == x {
      RootUnique(y, x, z, c.p);
    }
  }

  lemma RootOnCurve(y: int, v: int, x: int, e: nat, p: Pos)
    requires Prime(p) && p % 3 == 2 && v == Rem(y * y - 1, p) && e == (2 * p - 1) / 3 && x == PowMod(v, e, p)
    ensures Cong(y * y, x * x * x + 1, p)
  {
    hide IPow, Rem;
    RemCong(y * y - 1, Rem(y * y - 1, p), p);
    RemCong(IPow(v, e), Rem(IPow(v, e), p), p);
    CubeRoot(v, p);
    CongPow(x, IPow(v, e), 3, p);
    Cube(x);
    CongAdd(x * x * x, y * y - 1, 1, 1, p);
  }

  lemma RootUnique(y: int, x: int, z: int, p: Pos)
    requires Prime(p) && p % 3 == 2 && 0 <= x < p && 0 <= z < p
    requires Cong(y * y, x * x * x + 1, p) && Cong(y * y, z * z * z + 1, p)
    ensures z == x
  {
    hide Rem;
    CongAdd(x * x * x + 1, z * z * z + 1, 1, 1, p);
    CubesDiffer(x, z, p);
    CongSmall(x, z, p);
  }

  // ----- mympz_from_hash -----

  // mpz_setbit and mpz_clrbit
  function SetBit(x: nat, i: nat): (r: nat)
    ensures r >= x
  {
    P2Positive(i);
    if Bit(x, i) == 1 then x else x + P2(i)
  }

  function ClearBit(x: nat, i: nat): int { if Bit(x, i) == 1 then x - P2(i) else x }

  lemma ShiftSmall(x: nat, i: nat)
    requires x < P2(i)
    ensures Shift(x, i) == 0 && Bit(x, i) == 0
  {
    ShiftBound(x, i);
    P2Positive(i);
    if Shift(x, i) >= 1 { Monotone(P2(i), 1, Shift(x, i)); }
  }

  // The bits of z below position j.
  function Low(z: nat, j: nat): (r: nat)
    ensures r < P2(j)
  {
    if j == 0 then 0
    else
      P2Positive(j - 1);
      Low(z, j - 1) + Bit(z, j - 1) * P2(j - 1)
  }

  lemma {:induction false} LowSplit(z: nat, j: nat)
    ensures z == Shift(z, j) * P2(j) + Low(z, j)
  {
    if j == 0 {
      assert P2(0) == 1 && Shift(z, 0) == z;
    } else {
      LowSplit(z, j - 1);
      ShiftStep(z, j - 1);
      P2Positive(j - 1);
      hide Shift, Bit, IPow;
      LowStepArithmetic(Shift(z, j), Bit(z, j - 1), P2(j - 1));
    }
  }

  lemma LowStepArithmetic(s: int, b: int, u: int)
    ensures (2 * s + b) * u == s * (2 * u) + b * u
  {
    assert (2 * s + b) * u == 2 * s * u + b * u;
  }

  // Copying the bits of z to the positions from i0 on.
  method AppendBits(x0: nat, i0: nat, z: nat) returns (x: nat, i: nat)
    requires x0 < P2(i0)
    ensures i == i0 + BitLen(z) && x == x0 + P2(i0) * z && x < P2(i)
  {
    hide Shift, Bit, BitLen, IPow;
    x, i := x0, i0;
    AppendRoom(x0, i0, z, 0);
    for j := 0 to BitLen(z)
      invariant i == i0 + j && x == x0 + P2(i0) * Low(z, j) && x < P2(i)
    {
      ShiftSmall(x, i);
      AppendStep(x0, i0, j, Low(z, j), Bit(z, j));
      AppendRoom(x0, i0, z, j + 1);
      if Bit(z, j) == 1 {
        x := SetBit(x, i);
      }
      i := i + 1;
    }
    LowAll(z);
  }

  lemma LowAll(z: nat)
    ensures Low(z, BitLen(z)) == z
  {
    LeadingBit(z);
    LowSplit(z, BitLen(z));
  }

  lemma AppendStep(x0: int, i0: nat, j: nat, low: int, b: nat)
    requires b <= 1
    ensures x0 + P2(i0) * (low + b * P2(j)) == x0 + P2(i0) * low + b * P2(i0 + j)
  {
    P2Sum(i0, j);
    hide IPow;
    assert P2(i0) * (low + b * P2(j)) == P2(i0) * low + b * (P2(i0) * P2(j));
  }

  lemma AppendRoom(x0: nat, i0: nat, z: nat, j: nat)
    requires x0 < P2(i0)
    ensures 0 <= x0 + P2(i0) * Low(z, j) < P2(i0 + j)
  {
    P2Sum(i0, j);
    P2Positive(i0);
    hide IPow;
    Monotone(P2(i0), Low(z, j) + 1, P2(j));
    Monotone(P2(i0), 0, Low(z, j));
    assert P2(i0) * (Low(z, j) + 1) == P2(i0) * Low(z, j) + P2(i0);
  }

  // z, count, z, count + 1, ... laid out from the lowest bit until the given
  // number of bits is reached.
  function Stretched(z: nat, count: nat, bits: int): int
    decreases bits
  {
    var rest := bits - BitLen(z) - BitLen(count);
    if bits <= BitLen(z) then z
    else z + P2(BitLen(z)) * (count + P2(BitLen(count)) * (if rest <= 0 then 0 else Stretched(z, count + 1, rest)))
  }

  // Clearing leading bits until the limit is met.
  function Trimmed(x: nat, limit: nat): nat
    decreases x
  {
    if x <= limit then x
    else
      TopBit(x);
      Trimmed(ClearBit(x, BitLen(x) - 1), limit)
  }

  lemma TopBit(x: nat)
    requires x > 0
    ensures Bit(x, BitLen(x) - 1) == 1 && 0 <= ClearBit(x, BitLen(x) - 1) < x
    ensures ClearBit(x, BitLen(x) - 1) == x - P2(BitLen(x) - 1)
  {
    LeadingBit(x);
    ShiftBound(x, BitLen(x) - 1);
    P2Positive(BitLen(x) - 1);
  }

  // The result is the greatest remainder of x modulo a power of two that is
  // within the limit.
  lemma {:induction false} TrimmedMeets(x: nat, limit: nat)
    ensures Trimmed(x, limit) <= limit && Trimmed(x, limit) <= x
    ensures exists k: nat :: Trimmed(x, limit) == Low(x, k)
    ensures forall k: nat :: Low(x, k) <= limit ==> Low(x, k) <= Trimmed(x, limit)
    decreases x
  {
    if x <= limit {
      LowAll(x);
      forall k: nat ensures Low(x, k) <= x { LowAtMost(x, k); }
    } else {
      var k: nat := BitLen(x) - 1;
      TopBit(x);
      ClearedIsLow(x);
      hide Low, ClearBit, Bit, BitLen;
      TrimmedMeets(Low(x, k), limit);
      var l: nat :| Trimmed(Low(x, k), limit) == Low(Low(x, k), l);
      LowOfLow(x, k, l);
      forall j: nat | Low(x, j) <= limit ensures Low(x, j) <= Trimmed(x, limit) {
        if j > k { LengthBound(x); SmallLow(x, k + 1, j); }
        LowBelow(x, k, j);
      }
    }
  }

  lemma LowAtMost(x: nat, k: nat)
    ensures Low(x, k) <= x
  {
    LowSplit(x, k);
    P2Positive(k);
    hide IPow, Shift, Low;
    Monotone(P2(k), 0, Shift(x, k));
    assert Shift(x, k) * P2(k) == P2(k) * Shift(x, k);
  }

  lemma LowBelow(x: nat, k: nat, j: nat)
    ensures j <= k ==> Low(Low(x, k), j) == Low(x, j)
  {
    if j < k { LowIterated(x, k, j); } else if j == k { SmallLow(Low(x, k), k, k); }
  }

  lemma ClearedIsLow(x: nat)
    requires x > 0
    ensures ClearBit(x, BitLen(x) - 1) == Low(x, BitLen(x) - 1)
  {
    hide ClearBit, Bit, BitLen, Low, IPow, Shift;
    TopBit(x);
    LeadingBit(x);
    LowSplit(x, BitLen(x) - 1);
    assert 1 * P2(BitLen(x) - 1) == P2(BitLen(x) - 1);
  }

  // The trimmed value is the limit itself exactly when the bits of x below the
  // length of the limit spell it.
  lemma {:induction false} TrimmedIsLimit(x: nat, limit: nat)
    requires limit > 0
    ensures Trimmed(x, limit) == limit <==> Low(x, BitLen(limit)) == limit
    decreases x
  {
    LengthBound(limit); LengthBound(x);
    hide BitLen, IPow, Low, ClearBit, Bit;
    var b, k: nat := BitLen(limit), BitLen(x) - 1;
    if x <= limit {
      TrimmedOnce(x, limit);
      SmallLow(x, b, b);
    } else {
      TopBit(x);
      ClearedIsLow(x);
      TrimmedOnce(x, limit);
      TrimmedIsLimit(Low(x, k), limit);
      BitLenMonotone(limit, x);
      if b < k {
        LowIterated(x, k, b);
      } else if b == k {
        SmallLow(Low(x, k), k, k);
      } else {
        SmallLow(x, b, b);
        TrimmedMeets(Low(x, k), limit);
      }
    }
  }

  lemma TrimmedOnce(x: nat, limit: nat)
    ensures x <= limit ==> Trimmed(x, limit) == x
    ensures x > limit ==>
              0 <= ClearBit(x, BitLen(x) - 1) < x &&
              Trimmed(x, limit) == Trimmed(ClearBit(x, BitLen(x) - 1), limit)
  {
    if x > limit { TopBit(x); }
    hide BitLen, ClearBit;
  }

  // x has BitLen(x) bits.
  lemma LengthBound(x: nat)
    ensures x < P2(BitLen(x)) && (x > 0 ==> P2(BitLen(x) - 1) <= x)
  {
    LeadingBit(x);
    LowSplit(x, BitLen(x));
    if x > 0 { LowSplit(x, BitLen(x) - 1); }
    hide BitLen, IPow, Shift, Low;
    assert 0 * P2(BitLen(x)) == 0;
    assert 1 * P2(BitLen(x) - 1) == P2(BitLen(x) - 1);
  }

  // Low bits of low bits are low bits.
  lemma LowOfLow(x: nat, k: nat, l: nat)
    ensures exists m: nat :: Low(Low(x, k), l) == Low(x, m)
  {
    if l >= k {
      SmallLow(Low(x, k), k, l);
      assert Low(Low(x, k), l) == Low(x, k);
    } else {
      LowIterated(x, k, l);
      assert Low(Low(x, k), l) == Low(x, l);
    }
  }

  lemma SmallLow(w: nat, k: nat, l: nat)
    requires w < P2(k) && k <= l
    ensures Low(w, l) == w
  {
    if k < l { P2Grows(k, l); }
    ShiftSmall(w, l);
    LowSplit(w, l);
  }

  // Both are the residue of x modulo 2^l.
  lemma LowIterated(x: nat, k: nat, l: nat)
    requires l < k
    ensures Low(Low(x, k), l) == Low(x, l)
  {
    P2Positive(l);
    P2Sum(l, k - l);
    var w := Low(x, k);
    LowSplit(x, k); LowSplit(x, l); LowSplit(w, l);
    hide IPow, Shift, Low;
    ResiduesAgree(x, w, Low(x, l), Low(w, l), Shift(x, k), Shift(x, l), Shift(w, l), P2(k - l), P2(l));
  }

  lemma ResiduesAgree(x: int, w: int, r: int, t: int, a: int, b: int, c: int, v: int, u: Pos)
    requires x == a * (u * v) + w && x == b * u + r && w == c * u + t && 0 <= r < u && 0 <= t < u
    ensures t == r
  {
    assert a * (u * v) == a * v * u;
    assert r - t == (a * v + c - b) * u;
    CongIntro(r, t, a * v + c - b, u);
    CongSmall(r, t, u);
  }

  method MpzFromHash(limit: nat, hash: Bytes) returns (x: nat)
    ensures x <= limit && x == Trimmed(StretchedNat(Big(hash), 1, BitLen(limit)), limit)
  {
    hide Shift, Bit, BitLen, IPow, Low;
    var z := InpRaw(hash);
    x := Layout(z, BitLen(limit));
    ghost var whole := x;
    while x > limit
      invariant Trimmed(x, limit) == Trimmed(whole, limit)
      decreases x
    {
      TopBit(x);
      x := ClearBit(x, BitLen(x) - 1);
    }
  }

  function StretchedNat(z: nat, count: nat, bits: int): nat {
    StretchedPositive(z, count, bits);
    Stretched(z, count, bits)
  }

  lemma {:induction false} StretchedPositive(z: nat, count: nat, bits: int)
    ensures Stretched(z, count, bits) >= 0
    decreases bits
  {
    var rest := bits - BitLen(z) - BitLen(count);
    P2Positive(BitLen(z)); P2Positive(BitLen(count));
    if bits > BitLen(z) {
      if rest > 0 {
        StretchedPositive(z, count + 1, rest);
        Monotone(P2(BitLen(count)), 0, Stretched(z, count + 1, rest));
      }
      var t := if rest <= 0 then 0 else Stretched(z, count + 1, rest);
      Monotone(P2(BitLen(count)), 0, t);
      Monotone(P2(BitLen(z)), 0, count + P2(BitLen(count)) * t);
    }
  }

  // The do-while loop that lays out the bits.
  method Layout(z: nat, total: nat) returns (x: nat)
    ensures x == StretchedNat(z, 1, total)
  {
    hide Shift, Bit, BitLen, IPow, Low;
    var bits: int := total;
    var count := 1;
    var i := 0;
    x := 0;
    P2Zero();
    assert StretchedNat(z, 1, total) == x + P2(i) * Stretched(z, count, bits);
    while true
      invariant x < P2(i)
      invariant StretchedNat(z, 1, total) == x + P2(i) * Stretched(z, count, bits)
      decreases bits
    {
      ghost var x0, i0, bits0 := x, i, bits;
      x, i := AppendBits(x, i, z);
      bits := bits - BitLen(z);
      if bits <= 0 { break; }
      ghost var i1 := i;
      x, i := AppendBits(x, i, count);
      bits := bits - BitLen(count);
      LayoutStep(x0, i0, z, count, bits0, i1, i);
      count := count + 1;
      if bits <= 0 { break; }
    }
  }

  lemma LayoutStep(x0: int, i0: nat, z: nat, count: nat, bits: int, i1: nat, i2: nat)
    requires bits > BitLen(z) && i1 == i0 + BitLen(z) && i2 == i1 + BitLen(count)
    ensures var rest := bits - BitLen(z) - BitLen(count);
            x0 + P2(i0) * Stretched(z, count, bits)
              == x0 + P2(i0) * z + P2(i1) * count + P2(i2) * (if rest <= 0 then 0 else Stretched(z, count + 1, rest))
  {
    P2Sum(i0, BitLen(z));
    P2Sum(i1, BitLen(count));
    var rest := bits - BitLen(z) - BitLen(count);
    var t := if rest <= 0 then 0 else Stretched(z, count + 1, rest);
    hide IPow;
    Nested(P2(i0), z, P2(BitLen(z)), count, P2(BitLen(count)), t);
  }

  lemma Nested(u: int, z: int, v: int, c: int, w: int, t: int)
    ensures u * (z + v * (c + w * t)) == u * z + u * v * c + u * v * w * t
  {
    assert v * (c + w * t) == v * c + v * w * t;
    assert u * (z + (v * c + v * w * t)) == u * z + u * (v * c) + u * (v * w * t);
  }

  // ----- what is laid out -----

  // Piece by piece: with start(j) the sum of the lengths of the j copies of z and
  // of 1, ..., j, there is a copy of z from start(j) on and then j + 1, each as
  // long as the given number of bits has not been reached, and nothing behind.
  lemma LaidOut(z: nat, total: nat, start: nat -> nat, j: nat)
    requires total > 0 && start(0) == 0
    requires forall k: nat :: start(k + 1) == start(k) + BitLen(z) + BitLen(k + 1)
    ensures var x := StretchedNat(z, 1, total);
            var i := start(j) + BitLen(z);
            && (start(j) < total ==> Low(Shift(x, start(j)), BitLen(z)) == z)
            && (i < total ==> Low(Shift(x, i), BitLen(j + 1)) == j + 1)
            && (start(j) < total <= i ==> Shift(x, i) == 0)
            && (i < total <= start(j + 1) ==> Shift(x, start(j + 1)) == 0)
  {
    hide BitLen, Shift, Low, Stretched, StretchedNat;
    var x := StretchedNat(z, 1, total);
    if start(j) < total {
      var y := RestOfLayout(z, total, start, j);
      Pieces(z, j + 1, total - start(j), y);
      ShiftSum(x, start(j), BitLen(z));
      ShiftSum(x, start(j), BitLen(z) + BitLen(j + 1));
      assert start(j + 1) == start(j) + (BitLen(z) + BitLen(j + 1));
    }
  }

  // Behind the first j copies the layout goes on with count j + 1.
  lemma {:induction false} RestOfLayout(z: nat, total: nat, start: nat -> nat, j: nat) returns (y: nat)
    requires start(0) == 0 && start(j) < total
    requires forall k: nat :: start(k + 1) == start(k) + BitLen(z) + BitLen(k + 1)
    ensures y == Stretched(z, j + 1, total - start(j)) == Shift(StretchedNat(z, 1, total), start(j))
    decreases j
  {
    hide BitLen, Low, Stretched;
    var x := StretchedNat(z, 1, total);
    if j == 0 {
      y := x;
    } else {
      hide Shift, StretchedNat;
      var l := BitLen(z) + BitLen(j);
      assert start(j - 1 + 1) == start(j - 1) + BitLen(z) + BitLen(j - 1 + 1);
      var w := RestOfLayout(z, total, start, j - 1);
      Pieces(z, j, total - start(j - 1), w);
      ShiftSum(x, start(j - 1), l);
      y := Shift(x, start(j));
    }
  }

  // The first pieces of a layout.
  lemma Pieces(z: nat, count: nat, bits: nat, y: nat)
    requires bits > 0 && y == Stretched(z, count, bits)
    ensures Low(y, BitLen(z)) == z
    ensures bits <= BitLen(z) ==> Shift(y, BitLen(z)) == 0
    ensures bits > BitLen(z) ==> Low(Shift(y, BitLen(z)), BitLen(count)) == count
    ensures var rest := bits - BitLen(z) - BitLen(count);
            bits > BitLen(z) ==>
              Shift(y, BitLen(z) + BitLen(count)) == if rest <= 0 then 0 else Stretched(z, count + 1, rest)
  {
    var l, m := BitLen(z), BitLen(count);
    var rest := bits - l - m;
    LengthBound(z); LengthBound(count);
    P2Positive(m);
    hide BitLen, Shift, Low, IPow;
    if bits <= l {
      Joined(z, 0, l);
      assert P2(l) * 0 == 0;
    } else {
      if rest > 0 { StretchedPositive(z, count + 1, rest); }
      var t := if rest <= 0 then 0 else Stretched(z, count + 1, rest);
      Monotone(P2(m), 0, t);
      Joined(z, count + P2(m) * t, l);
      Joined(count, t, m);
      ShiftSum(y, l, m);
    }
  }

  // A number in front of its l lowest bits.
  lemma Joined(z: nat, w: nat, l: nat)
    requires z < P2(l)
    ensures z + P2(l) * w >= 0 && Shift(z + P2(l) * w, l) == w && Low(z + P2(l) * w, l) == z
  {
    P2Positive(l);
    hide IPow, Shift, Low;
    Monotone(P2(l), 0, w);
    var y: nat := z + P2(l) * w;
    LowSplit(y, l);
    assert w * P2(l) == P2(l) * w;
    ModIntro(y, w, z, P2(l));
    ModIntro(y, Shift(y, l), Low(y, l), P2(l));
  }

  lemma {:induction false} ShiftSum(n: nat, i: nat, j: nat)
    ensures Shift(n, i + j) == Shift(Shift(n, i), j)
  {
    if j > 0 { ShiftSum(n, i, j - 1); }
  }

  // ----- the cube root of unity -----

  // -1/2 + b i, where -2b is that square root of 3 which is a square itself.
  method SetCbrtUnity(x: Elem, p: Pos)
    requires Prime(p) && p % 4 == 3 && p > 3
    modifies x
    ensures 2 * x.a == p - 1 && 0 <= x.b < p
    ensures Cong(IPow(3, (p - 1) / 2), 1, p) ==>
              CongG(Mul(Mul(x.Val(), x.Val()), x.Val()), ONE, p) && !CongG(x.Val(), ONE, p)
    ensures Cong(IPow(3, (p - 1) / 2), 1, p) ==> Cong(IPow(-2 * x.b, (p - 1) / 2), 1, p)
  {
    hide Rem, IPow, Mul;
    x.a := p;
    x.a := x.a - 1;
    x.a := x.a / 2;
    var p1on4 := (p + 1) / 4;
    x.b := 3;
    x.b := PowMod(x.b, p1on4, p);
    ghost var s := x.b;
    x.b := x.b * x.a;
    x.b := Rem(x.b, p);
    if Cong(IPow(3, (p - 1) / 2), 1, p) {
      RootOfThree(s, p1on4, (p - 1) / 2, p);
      UnityRoot(x.a, s, x.b, p);
      UnityIsSquare(x.a, s, x.b, p);
    }
  }

  // s is a power of 3 and therefore a square when 3 is one.
  lemma UnityIsSquare(h: int, s: int, b: int, p: Pos)
    requires p % 4 == 3 && 2 * h == p - 1 && s == PowMod(3, (p + 1) / 4, p) && b == Rem(s * h, p)
    requires Cong(IPow(3, (p - 1) / 2), 1, p)
    ensures Cong(IPow(-2 * b, (p - 1) / 2), 1, p)
  {
    hide Rem, Cong, IPow;
    var e, m := (p + 1) / 4, (p - 1) / 2;
    RemCong(s * h, b, p);
    MinusTwice(h, s, b, p);
    RemCong(IPow(3, e), s, p);
    CongTrans(-2 * b, s, IPow(3, e), p);
    CongPow(-2 * b, IPow(3, e), m, p);
    IPowPow(3, e, m); IPowPow(3, m, e);
    assert e * m == m * e;
    CongPow(IPow(3, m), 1, e, p);
    OnePower(e);
    CongTrans(IPow(-2 * b, m), IPow(IPow(3, e), m), 1, p);
  }

  lemma MinusTwice(h: int, s: int, b: int, p: Pos)
    requires 2 * h == p - 1 && Cong(b, s * h, p)
    ensures Cong(-2 * b, s, p)
  {
    hide Rem;
    CongMul(-2, -2, b, s * h, p);
    assert -2 * (s * h) == s * (1 - p);
    CongIntro(-2 * (s * h), s, -s, p);
  }

  lemma {:induction false} OnePower(n: nat)
    ensures IPow(1, n) == 1
  {
    if n > 0 { OnePower(n - 1); }
  }

  // Only one cube root of unity is like this.
  lemma UnityChoice(x: Gauss, z: Gauss, p: Pos)
    requires Prime(p) && p % 4 == 3 && p > 3 && 2 * x.a == p - 1 == 2 * z.a && 0 <= x.b < p && 0 <= z.b < p
    requires CongG(Mul(Mul(x, x), x), ONE, p) && CongG(Mul(Mul(z, z), z), ONE, p)
    requires Cong(IPow(-2 * x.b, (p - 1) / 2), 1, p) && Cong(IPow(-2 * z.b, (p - 1) / 2), 1, p)
    ensures x == z
  {
    hide Rem, IPow, Cong;
    SquareIsThree(x, p); SquareIsThree(z, p);
    CongMeetSquares(x.b, z.b, 3 * (x.a * x.a), p);
    if Cong(x.b, -z.b, p) { OppositeNotSquare(x.b, z.b, p); }
    CongSmall(x.b, z.b, p);
  }

  lemma SquareIsThree(x: Gauss, p: Pos)
    requires Prime(p) && p > 3 && CongG(Mul(Mul(x, x), x), ONE, p) && Cong(IPow(-2 * x.b, (p - 1) / 2), 1, p)
    ensures Cong(x.b * x.b, 3 * (x.a * x.a), p)
  {
    hide Rem;
    var a, b := x.a, x.b;
    assert Cong(Mul(Mul(x, x), x).b, 0, p);
    assert Mul(Mul(x, x), x).b == b * (3 * (a * a) - b * b) by { ImaginaryCube(a, b); }
    ResidueNonZero(b, p);
    EuclidLemma(b, 3 * (a * a) - b * b, p);
    CongSub(3 * (a * a), b * b, p);
  }

  lemma ImaginaryCube(a: int, b: int)
    ensures (a * a - b * b) * b + (a * b + b * a) * a == b * (3 * (a * a) - b * b)
  {
  }

  lemma ResidueNonZero(b: int, p: Pos)
    requires Prime(p) && p > 3 && Cong(IPow(-2 * b, (p - 1) / 2), 1, p)
    ensures !Cong(b, 0, p)
  {
    if Cong(b, 0, p) {
      hide Rem;
      CongMul(-2, -2, b, 0, p);
      CongPow(-2 * b, 0, (p - 1) / 2, p);
      assert IPow(0, (p - 1) / 2) == 0;
      CanonicalNonZero(1, p);
    }
  }

  lemma CongMeetSquares(b: int, c: int, w: int, p: Pos)
    requires Prime(p) && Cong(b * b, w, p) && Cong(c * c, w, p)
    ensures Cong(b, c, p) || Cong(b, -c, p)
  {
    CongSub(b * b, c * c, p);
    assert (b - c) * (b + c) == b * b - c * c;
    EuclidLemma(b - c, b + c, p);
    CongSub(b, c, p); CongSub(b, -c, p);
  }

  // -1 is no square modulo p = 3 mod 4.
  lemma OppositeNotSquare(b: int, c: int, p: Pos)
    requires p % 4 == 3 && Cong(IPow(-2 * c, (p - 1) / 2), 1, p) && Cong(b, -c, p)
    ensures !Cong(IPow(-2 * b, (p - 1) / 2), 1, p)
  {
    hide Rem, IPow;
    var m: nat := (p - 1) / 2;
    assert m % 2 == 1;
    CongMul(-2, -2, b, -c, p);
    CongPow(-2 * b, -1 * (-2 * c), m, p);
    IPowMul(-1, -2 * c, m);
    SignPower(m);
    CongMul(-1, -1, IPow(-2 * c, m), 1, p);
    OneIsNotMinusOne(p);
  }

  lemma RootOfThree(s: int, e: nat, h: nat, p: Pos)
    requires e + e == h + 1 && Cong(IPow(3, h), 1, p) && s == PowMod(3, e, p)
    ensures Cong(s * s, 3, p)
  {
    hide Rem, IPow;
    RemCong(IPow(3, e), Rem(IPow(3, e), p), p);
    CongMul(s, IPow(3, e), s, IPow(3, e), p);
    IPowAdd(3, e, e);
    IPowAdd(3, h, 1);
    ISmall(3);
    CongMul(IPow(3, h), 1, 3, 3, p);
  }

  // h (1 + s i) for h = -1/2 and s^2 = 3.
  lemma UnityRoot(h: int, s: int, b: int, p: Pos)
    requires Prime(p) && p > 3 && 2 * h == p - 1 && Cong(s * s, 3, p) && b == Rem(s * h, p)
    ensures var x := G(h, b); CongG(Mul(Mul(x, x), x), ONE, p) && !CongG(x, ONE, p)
  {
    hide Rem, Mul;
    RemCong(s * h, Rem(s * h, p), p);
    var x, u := G(h, b), G(h, s * h);
    CongGMul(x, u, x, u, p);
    CongGMul(Mul(x, x), Mul(u, u), x, u, p);
    UnityCube(h, s);
    CongIntro(2 * h, -1, 1, p);
    CubeParts(h, s, p);
    if Cong(h, 1, p) {
      CongMul(2, 2, h, 1, p);
      CongSub(2, -1, p);
      ThreeNonZero(p);
    }
  }

  lemma ThreeNonZero(p: Pos)
    requires p > 3
    ensures !Cong(3, 0, p)
  {
    ModIntro(3, 0, 3, p); ModIntro(0, 0, 0, p);
  }

  lemma UnityCube(h: int, s: int)
    ensures var u := G(h, s * h);
            Mul(Mul(u, u), u) == G(h * h * h * (1 - 3 * (s * s)), h * h * h * (3 - s * s) * s)
  {
    var u, v := G(h, 0), G(1, s);
    RealFactor(v, h);
    MulComm(v, u);
    assert G(h, s * h) == Mul(v, u) by { assert h * s == s * h; }
    var w := Mul(v, u);
    MulSwap(v, u, v, u);
    MulSwap(Mul(v, v), Mul(u, u), v, u);
    assert Mul(Mul(w, w), w) == Mul(Mul(Mul(v, v), v), Mul(Mul(u, u), u));
    assert Mul(Mul(u, u), u) == G(h * h * h, 0);
    UnitCube(s);
    RealFactor(Mul(Mul(v, v), v), h * h * h);
    assert h * h * h * ((3 - s * s) * s) == h * h * h * (3 - s * s) * s;
  }

  lemma UnitCube(s: int)
    ensures var v := G(1, s); Mul(Mul(v, v), v) == G(1 - 3 * (s * s), (3 - s * s) * s)
  {
    var v := G(1, s);
    assert Mul(v, v) == G(1 - s * s, 2 * s);
    assert (1 - s * s) * s + 2 * s == (3 - s * s) * s;
  }

  lemma CubeParts(h: int, s: int, p: Pos)
    requires Cong(2 * h, -1, p) && Cong(s * s, 3, p)
    ensures Cong(h * h * h * (1 - 3 * (s * s)), 1, p) && Cong(h * h * h * (3 - s * s) * s, 0, p)
  {
    hide Rem;
    var c := h * h * h;
    CongMul(2 * h, -1, 2 * h, -1, p);
    CongMul(2 * h * (2 * h), 1, 2 * h, -1, p);
    assert 2 * h * (2 * h) * (2 * h) == 8 * c;
    CongMul(3, 3, s * s, 3, p);
    CongAdd(1, 1, 3 * (s * s), 9, p);
    CongMul(c, c, 1 - 3 * (s * s), -8, p);
    CongMul(-1, -1, 8 * c, -1, p);
    CongAdd(3, 3, s * s, 3, p);
    CongMul(c, c, 3 - s * s, 0, p);
    CongMul(c * (3 - s * s), c * 0, s, s, p);
    assert c * 0 * s == 0;
  }

  // point_Phi multiplies the abscissa by the root and stays on the curve.
  method Phi(PhiP: Point, P: Point, zeta: Elem, p: Pos)
    requires PhiP.x != PhiP.y && PhiP.x != P.y
    modifies PhiP.x, PhiP.y
    ensures old(OnCurve2(P.x.Val(), P.y.Val(), p)) &&
            old(CongG(Mul(Mul(zeta.Val(), zeta.Val()), zeta.Val()), ONE, p)) ==>
              OnCurve2(PhiP.x.Val(), PhiP.y.Val(), p)
    ensures PhiP.x.Val() == Red(Mul(old(P.x.Val()), old(zeta.Val())), p) && PhiP.y.Val() == old(P.y.Val())
  {
    hide Rem, Mul, Red;
    ghost var x, z, y := P.x.Val(), zeta.Val(), P.y.Val();
    PhiP.x.SetMul(P.x, zeta, p);
    PhiP.y.Set(P.y);
    if OnCurve2(x, y, p) && CongG(Mul(Mul(z, z), z), ONE, p) {
      PhiOnCurve(x, y, z, p);
    }
  }

  lemma PhiOnCurve(x: Gauss, y: Gauss, z: Gauss, p: Pos)
    requires OnCurve2(x, y, p) && CongG(Mul(Mul(z, z), z), ONE, p)
    ensures OnCurve2(Red(Mul(x, z), p), y, p)
  {
    CongGRed(Mul(x, z), p);
    hide Rem, Mul;
    var w := Red(Mul(x, z), p);
    var u := Mul(x, z);
    CongGMul(w, u, w, u, p);
    CongGMul(Mul(w, w), Mul(u, u), w, u, p);
    MulSwap(x, z, x, z);
    MulSwap(Mul(x, x), Mul(z, z), x, z);
    CongGMul(Mul(Mul(x, x), x), Mul(Mul(x, x), x), Mul(Mul(z, z), z), ONE, p);
    MulOne(Mul(Mul(x, x), x));
    CongGAdd(Mul(Mul(w, w), w), Mul(Mul(x, x), x), ONE, ONE, p);
  }

}
