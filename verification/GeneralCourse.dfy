// The additions that general_point_mul performs for a scalar, and what comes of
// them on a point of given order.
module GeneralCourse {
  import opened NumberTheory
  import opened Bits
  import opened EllipticCurve
  import opened PointGroup
  import opened Fp2
  import opened Curves
  import opened ExtensionGroup

  // A point formed by additions, and whether one of them clashed.
  datatype Trace = Trace(at: Pt2, clashed: bool)

  const START := Trace(O2, false)

  function Join(s: Trace, t: Trace, p: Pos): Trace {
    Trace(CodeSum(s.at, t.at, p), s.clashed || t.clashed || Clash(s.at, t.at))
  }

  // The j-th entry of the table: P, 2 P, and 2 P added again and again to P.
  function Slot(j: nat, P: Pt2, p: Pos): Trace {
    if j == 0 then START
    else if j == 1 then Trace(P, false)
    else if j == 2 then Join(Trace(P, false), Trace(P, false), p)
    else Join(Slot(j - 2, P, p), Slot(2, P, p), p)
  }

  function Doubled(s: Trace, k: nat, p: Pos): Trace {
    if k == 0 then s else Join(Doubled(s, k - 1, p), Doubled(s, k - 1, p), p)
  }

  // The lowest bit of the window that starts at bit m.
  function WindowEnd(n: nat, m: nat): (l: nat)
    ensures l <= m < l + WINDOW && (Bit(n, m) == 1 ==> Bit(n, l) == 1)
  {
    FirstSet(n, if m < WINDOW then 0 else m - WINDOW + 1, m)
  }

  // The bits m..l as a number.
  function WindowBits(n: nat, m: int, l: nat): nat
    decreases m - l
  {
    if l > m then 0 else 2 * WindowBits(n, m, l + 1) + Bit(n, l)
  }

  // A window of five bits selects an entry of the table, odd like its last bit.
  lemma {:induction false} WindowBitsBound(n: nat, m: int, l: nat)
    requires l <= m + 1 <= l + WINDOW
    ensures var j := WindowBits(n, m, l);
            if l == m + 1 then j < 1 else if l == m then j < 2 else if l == m - 1 then j < 4
            else if l == m - 2 then j < 8 else if l == m - 3 then j < 16 else j < 32
    ensures l <= m ==> WindowBits(n, m, l) % 2 == Bit(n, l)
    decreases m + 1 - l
  {
    hide Shift;
    if l <= m { WindowBitsBound(n, m, l + 1); }
  }

  // The rest of the loop from bit m downwards.
  function Walked(s: Trace, n: nat, m: int, P: Pt2, p: Pos): Trace
    decreases m
  {
    if m < 0 then s
    else if Bit(n, m) == 0 then Walked(Join(s, s, p), n, m - 1, P, p)
    else
      var l := WindowEnd(n, m);
      Walked(Join(Doubled(s, m - l + 1, p), Slot(WindowBits(n, m, l), P, p), p), n, l - 1, P, p)
  }

  // What general_point_mul makes of a and P on a curve of order q.
  function Product(a: int, P: Pt2, q: Pos, p: Pos): Trace {
    var n: nat := Rem(a, q);
    if P.O2? || a == 0 then START else Walked(START, n, BitLen(n) - 1, P, p)
  }

  lemma WalkedBit(s: Trace, n: nat, m: nat, P: Pt2, p: Pos)
    requires Bit(n, m) == 0
    ensures Walked(s, n, m, P, p) == Walked(Join(s, s, p), n, m - 1, P, p)
  {
    hide Bit, Join;
  }

  lemma WalkedWindow(s: Trace, n: nat, m: nat, P: Pt2, p: Pos)
    requires Bit(n, m) == 1
    ensures var l := WindowEnd(n, m);
            Walked(s, n, m, P, p)
              == Walked(Join(Doubled(s, m - l + 1, p), Slot(WindowBits(n, m, l), P, p), p), n, l - 1, P, p)
  {
    hide Bit, Join, WindowEnd, WindowBits, Doubled, Slot;
  }

  // ----- what every addition keeps -----

  // I holds of what the course starts from and of every sum.
  ghost predicate Kept(I: Trace -> bool, P: Pt2, p: Pos) {
    I(START) && I(Trace(P, false)) && forall s, t :: I(s) && I(t) ==> I(Join(s, t, p))
  }

  lemma {:induction false} SlotKeeps(I: Trace -> bool, j: nat, P: Pt2, p: Pos)
    requires Kept(I, P, p)
    ensures I(Slot(j, P, p))
  {
    hide Join;
    if j > 2 {
      SlotKeeps(I, j - 2, P, p);
      SlotKeeps(I, 2, P, p);
    }
  }

  lemma {:induction false} DoubledKeeps(I: Trace -> bool, s: Trace, k: nat, P: Pt2, p: Pos)
    requires Kept(I, P, p) && I(s)
    ensures I(Doubled(s, k, p))
  {
    hide Join;
    if k > 0 { DoubledKeeps(I, s, k - 1, P, p); }
  }

  lemma {:induction false} WalkedKeeps(I: Trace -> bool, s: Trace, n: nat, m: int, P: Pt2, p: Pos)
    requires Kept(I, P, p) && I(s)
    ensures I(Walked(s, n, m, P, p))
    decreases m
  {
    hide Join, Bit, WindowEnd, WindowBits, Slot, Doubled, Walked;
    if m < 0 {
      WalkedDone(s, n, m, P, p);
    } else if Bit(n, m) == 0 {
      WalkedBit(s, n, m, P, p);
      WalkedKeeps(I, Join(s, s, p), n, m - 1, P, p);
    } else {
      var l: int := WindowEnd(n, m);
      WalkedWindow(s, n, m, P, p);
      DoubledKeeps(I, s, m - l + 1, P, p);
      SlotKeeps(I, WindowBits(n, m, l), P, p);
      WalkedKeeps(I, Join(Doubled(s, m - l + 1, p), Slot(WindowBits(n, m, l), P, p), p), n, l - 1, P, p);
    }
  }

  lemma WalkedDone(s: Trace, n: nat, m: int, P: Pt2, p: Pos)
    requires m < 0
    ensures Walked(s, n, m, P, p) == s
  {
  }

  lemma ProductKeeps(I: Trace -> bool, a: int, P: Pt2, q: Pos, p: Pos)
    requires Kept(I, P, p)
    ensures I(Product(a, P, q, p))
  {
    hide Walked, BitLen, Join;
    var n: nat := Rem(a, q);
    WalkedKeeps(I, START, n, BitLen(n) - 1, P, p);
  }

  // As long as no addition clashes, what has been made from P is on the curve; a
  // clash needs a point of order two that has been made without one.
  ghost predicate MadeFrom(s: Trace, P: Pt2, p: Pos) {
    if s.clashed then exists T :: Made(T, P, p) && OrderTwo(T) else Made(s.at, P, p)
  }

  lemma JoinMade(s: Trace, t: Trace, P: Pt2, p: Pos)
    requires MadeFrom(s, P, p) && MadeFrom(t, P, p)
    ensures MadeFrom(Join(s, t, p), P, p)
  {
    hide Made, CodeSum, OrderTwo;
    if !Join(s, t, p).clashed {
      MadeSum(s.at, t.at, P, p);
    } else if !s.clashed && !t.clashed {
      ClashIsOrderTwo(s.at, t.at);
    }
  }

  lemma ClashIsOrderTwo(S: Pt2, T: Pt2)
    requires Clash(S, T)
    ensures OrderTwo(S)
  {
  }

  lemma ProductMade(a: int, P: Pt2, q: Pos, p: Pos)
    requires Field2(p) && On2(P, p)
    ensures var s := Product(a, P, q, p);
            if s.clashed then exists T :: Made(T, P, p) && OrderTwo(T) else Made(s.at, P, p) && On2(s.at, p)
  {
    hide Made, Product, Join, On2, OrderTwo;
    MadeBasis(P, p);
    forall s, t | MadeFrom(s, P, p) && MadeFrom(t, P, p) ensures MadeFrom(Join(s, t, p), P, p) {
      JoinMade(s, t, P, p);
    }
    var I := (s: Trace) => MadeFrom(s, P, p);
    ProductKeeps(I, a, P, q, p);
    var s := Product(a, P, q, p);
    if !s.clashed { MadeOnCurve(s.at, P, p); }
  }

  // ----- below the order -----

  function Twice(e: nat, k: nat): nat { if k == 0 then e else 2 * Twice(e, k - 1) }

  // The trace that stands at the i-th multiple without a clash.
  function At(i: nat, P: Pt2, p: Pos): Trace { Trace(Times2(i, P, p), false) }

  lemma JoinMultiples(i: nat, j: nat, P: Pt2, r: Pos, p: Pos)
    requires Field2(p) && LongOrder(P, r, p) && i + j < r
    ensures Join(At(i, P, p), At(j, P, p), p) == At(i + j, P, p)
  {
    hide LongOrder, CodeSum, Clash, Times2;
    NextMultiple(i, j, P, r, p);
  }

  lemma {:induction false} SlotMultiple(j: nat, P: Pt2, r: Pos, p: Pos)
    requires Field2(p) && LongOrder(P, r, p) && j < r
    ensures Slot(j, P, p) == At(j, P, p)
  {
    hide LongOrder, Join, Times2;
    Times2Zero(P, p);
    if j == 2 {
      JoinMultiples(1, 1, P, r, p);
    } else if j > 2 {
      SlotMultiple(j - 2, P, r, p);
      SlotMultiple(2, P, r, p);
      JoinMultiples(j - 2, 2, P, r, p);
    }
  }

  lemma {:induction false} DoubledMultiple(e: nat, k: nat, P: Pt2, r: Pos, p: Pos)
    requires Field2(p) && LongOrder(P, r, p) && Twice(e, k) < r
    ensures Doubled(At(e, P, p), k, p) == At(Twice(e, k), P, p)
  {
    hide LongOrder, Join, At;
    if k > 0 {
      DoubledMultiple(e, k - 1, P, r, p);
      JoinMultiples(Twice(e, k - 1), Twice(e, k - 1), P, r, p);
    }
  }

  lemma {:induction false} WindowSplits(n: nat, m: nat, l: nat)
    requires l <= m + 1
    ensures Shift(n, l) == Twice(Shift(n, m + 1), m + 1 - l) + WindowBits(n, m, l)
    decreases m + 1 - l
  {
    hide Shift, Bit;
    if l <= m {
      WindowSplits(n, m, l + 1);
      ShiftStep(n, l);
    }
  }

  lemma WindowMultiple(n: nat, m: nat, l: nat, P: Pt2, r: Pos, p: Pos)
    requires Field2(p) && LongOrder(P, r, p) && l <= m && Shift(n, l) < r
    ensures Join(Doubled(At(Shift(n, m + 1), P, p), m - l + 1, p), Slot(WindowBits(n, m, l), P, p), p)
         == At(Shift(n, l), P, p)
  {
    hide LongOrder, Join, At, Shift, Twice, WindowBits, Slot, Doubled;
    var e, j := Shift(n, m + 1), WindowBits(n, m, l);
    WindowSplits(n, m, l);
    DoubledMultiple(e, m - l + 1, P, r, p);
    SlotMultiple(j, P, r, p);
    JoinMultiples(Twice(e, m - l + 1), j, P, r, p);
  }

  lemma {:induction false} WalkedMultiple(n: nat, m: int, P: Pt2, r: Pos, p: Pos)
    requires Field2(p) && LongOrder(P, r, p) && n < r && -1 <= m
    ensures Walked(At(Shift(n, m + 1), P, p), n, m, P, p) == At(n, P, p)
    decreases m
  {
    hide LongOrder, Join, At, Shift, Bit, WindowBits, WindowEnd, Slot, Doubled, Walked;
    var s := At(Shift(n, m + 1), P, p);
    if m < 0 {
      WalkedDone(s, n, m, P, p);
      ShiftZero(n);
    } else if Bit(n, m) == 0 {
      WalkedBit(s, n, m, P, p);
      ShiftStep(n, m);
      ShiftAtMost(n, m);
      JoinMultiples(Shift(n, m + 1), Shift(n, m + 1), P, r, p);
      WalkedMultiple(n, m - 1, P, r, p);
    } else {
      var l: int := WindowEnd(n, m);
      WalkedWindow(s, n, m, P, p);
      ShiftAtMost(n, l);
      WindowMultiple(n, m, l, P, r, p);
      WalkedMultiple(n, l - 1, P, r, p);
    }
  }

  lemma ShiftZero(n: nat)
    ensures Shift(n, 0) == n
  {
  }

  // With a reduced modulo q below the order, the result is the multiple.
  lemma ProductMultiple(a: int, P: Pt2, q: Pos, r: Pos, p: Pos)
    requires Field2(p) && LongOrder(P, r, p) && Rem(a, q) < r
    ensures Product(a, P, q, p) == At(Rem(a, q), P, p)
  {
    hide Walked, BitLen, Shift, Times2, On2, Additive;
    var n: nat := Rem(a, q);
    ModIntro(0, 0, 0, q);
    Times2Zero(P, p);
    if P.A2? && a != 0 {
      LeadingBit(n);
      WalkedMultiple(n, BitLen(n) - 1, P, r, p);
    }
  }

  // ----- any order -----

  // Twice a number is a multiple of an odd order only if the number is.
  lemma OddHalf(i: nat, r: Pos)
    requires r % 2 == 1 && Cong(i + i, 0, r)
    ensures Cong(i, 0, r)
  {
    hide Rem;
    var k := CongElim(i + i, 0, r);
    EvenFactor(k, r, i);
    HalfProduct(k / 2, r);
    CongIntro(i, 0, k / 2, r);
  }

  lemma EvenFactor(k: int, r: int, i: int)
    requires k * r == i + i && r % 2 == 1
    ensures k % 2 == 0
  {
    if k % 2 == 1 { OddTimesOdd(k, r); }
  }

  lemma HalfProduct(h: int, r: int)
    ensures (2 * h) * r == 2 * (h * r)
  {
  }

  // On a point of odd order nothing clashes, because no multiple has order two.
  ghost predicate SoundMultiple(s: Trace, P: Pt2, p: Pos) {
    !s.clashed && exists k: nat :: s.at == Times2(k, P, p)
  }

  lemma JoinSound(s: Trace, t: Trace, P: Pt2, r: Pos, p: Pos)
    requires Field2(p) && Order2(P, r, p) && r % 2 == 1 && SoundMultiple(s, P, p) && SoundMultiple(t, P, p)
    ensures SoundMultiple(Join(s, t, p), P, p)
  {
    hide Order2, Times2, CodeSum, OrderTwo, On2, Additive, Cong;
    var i: nat :| s.at == Times2(i, P, p);
    var j: nat :| t.at == Times2(j, P, p);
    OrderOf2(i, P, r, p); OrderOf2(i + i, P, r, p);
    OrderTwoMultiple(i, P, p);
    if Cong(i + i, 0, r) { OddHalf(i, r); }
    var k := SomeMultiple(i, j, P, p);
  }

  lemma OddProduct(a: int, P: Pt2, q: Pos, r: Pos, p: Pos)
    requires Field2(p) && Order2(P, r, p) && r % 2 == 1
    ensures var s := Product(a, P, q, p); !s.clashed && On2(s.at, p) && exists k: nat :: s.at == Times2(k, P, p)
  {
    hide Order2, Times2, Product, Join, On2;
    OrderOf2(0, P, r, p);
    Times2Zero(P, p);
    assert SoundMultiple(START, P, p) && SoundMultiple(Trace(P, false), P, p);
    forall s, t | SoundMultiple(s, P, p) && SoundMultiple(t, P, p) ensures SoundMultiple(Join(s, t, p), P, p) {
      JoinSound(s, t, P, r, p);
    }
    ProductKeeps((s: Trace) => SoundMultiple(s, P, p), a, P, q, p);
    var k: nat :| Product(a, P, q, p).at == Times2(k, P, p);
    Times2OnCurve(k, P, p);
  }

  // An even n whose half is below the order: the last addition is a doubling.
  lemma {:induction false} WalkedToHalf(n: nat, m: nat, P: Pt2, r: Pos, p: Pos)
    requires Field2(p) && LongOrder(P, r, p) && Bit(n, 0) == 0 && Shift(n, 1) < r
    ensures var T := At(Shift(n, 1), P, p); Walked(At(Shift(n, m + 1), P, p), n, m, P, p) == Join(T, T, p)
    decreases m
  {
    hide LongOrder, Join, At, Shift, Bit, WindowBits, WindowEnd, Slot, Doubled, Walked;
    var s := At(Shift(n, m + 1), P, p);
    if Bit(n, m) == 0 {
      WalkedBit(s, n, m, P, p);
      if m == 0 {
        WalkedDone(Join(s, s, p), n, -1, P, p);
      } else {
        ShiftStep(n, m);
        ShiftFalls(n, 1, m);
        JoinMultiples(Shift(n, m + 1), Shift(n, m + 1), P, r, p);
        WalkedToHalf(n, m - 1, P, r, p);
      }
    } else {
      var l: int := WindowEnd(n, m);
      WalkedWindow(s, n, m, P, p);
      ShiftFalls(n, 1, l);
      WindowMultiple(n, m, l, P, r, p);
      WalkedToHalf(n, l - 1, P, r, p);
    }
  }

  // On a point of even order r below q the scalar r doubles a point of order two
  // last, and the result is not on the curve.
  lemma EvenProduct(P: Pt2, q: Pos, r: Pos, p: Pos)
    requires Field2(p) && p > 3 && Order2(P, r, p) && r % 2 == 0 && r < q
    ensures var s := Product(r, P, q, p); s.clashed && !On2(s.at, p)
  {
    hide Walked, BitLen, Times2, On2, Additive, CodeSum, Order2, Cong, OrderTwo;
    var h := r / 2;
    HalfOrder(h, P, r, p);
    OrderIsLong(P, r, p);
    assert Shift(r, 0) == r && Shift(r, 1) == h;
    LeadingBit(r);
    Times2Zero(P, p);
    ModIntro(r, 0, r, q);
    WalkedToHalf(r, BitLen(r) - 1, P, r, p);
    var T := Times2(h, P, p);
    CodeSumCloses(T, T, p);
  }

  lemma HalfOrder(h: nat, P: Pt2, r: Pos, p: Pos)
    requires Field2(p) && Order2(P, r, p) && r == h + h
    ensures P != O2 && On2(Times2(h, P, p), p) && OrderTwo(Times2(h, P, p)) && Clash(Times2(h, P, p), Times2(h, P, p))
  {
    hide Times2, Additive, Order2, On2;
    OrderOf2(1, P, r, p); OrderOf2(h, P, r, p); OrderOf2(r, P, r, p);
    CanonicalNonZero(1, r); CanonicalNonZero(h, r);
    CongIntro(r, 0, 1, r);
    Times2Zero(P, p);
    OrderTwoMultiple(h, P, p);
    Times2OnCurve(h, P, p);
  }

  // general_point_mul answers with a point of the curve for every scalar exactly
  // when the order of P is odd or not below q.
  lemma ProductValid(P: Pt2, q: Pos, r: Pos, p: Pos)
    requires Field2(p) && p > 3 && Order2(P, r, p)
    ensures (r % 2 == 1 || r >= q) <==> forall a :: On2(Product(a, P, q, p).at, p)
  {
    hide Product, On2, Order2, Times2;
    if r % 2 == 1 || r >= q {
      forall a ensures On2(Product(a, P, q, p).at, p) {
        if r % 2 == 1 {
          OddProduct(a, P, q, r, p);
        } else {
          OrderIsLong(P, r, p);
          OrderOf2(0, P, r, p);
          ProductMultiple(a, P, q, r, p);
          Times2OnCurve(Rem(a, q), P, p);
        }
      }
    } else {
      EvenProduct(P, q, r, p);
    }
  }

  // So on E/F_p.
  lemma RealValid(P: Pt, q: Pos, r: Pos, p: Pos)
    requires GroupLaw(p) && p % 4 == 3 && HasOrder(P, r, p)
    ensures (r % 2 == 1 || r >= q) <==> forall a :: On2(Product(a, Embed(P), q, p).at, p)
  {
    hide Product, On2, Order2, HasOrder, Associative, Embed;
    RealOrder(P, r, p);
    ProductValid(Embed(P), q, r, p);
  }

  // ----- the products themselves -----

  // On E/F_p the result is a P, for every order and every integer a.
  lemma RealProduct(a: int, P: Pt, q: Pos, p: Pos)
    requires GroupLaw(p) && p % 4 == 3 && HasOrder(P, q, p)
    ensures Product(a, Embed(P), q, p) == Trace(Embed(Times(a, P, p)), false)
  {
    hide Times, HasOrder, Associative, Order2, LongOrder, Product, Times2, OnCurve, Embed;
    var n: nat := Rem(a, q);
    OrderOf(0, P, q, p);
    RealOrder(P, q, p);
    OrderIsLong(Embed(P), q, p);
    ProductMultiple(a, Embed(P), q, q, p);
    EmbedTimes(n, P, p);
    CongMod(a, q);
    TimesEqual(a, n, P, q, p);
  }

  // Over F_p^2 it is a P for every P of order q, in the sense that a negative a
  // gives the opposite of -a P.
  lemma ExtensionProduct(a: int, P: Pt2, q: Pos, p: Pos)
    requires Field2(p) && Order2(P, q, p)
    ensures var s := Product(a, P, q, p);
            && !s.clashed
            && (if a >= 0 then s.at == Times2(a, P, p) else Plus2(s.at, Times2(-a, P, p), p) == O2)
  {
    hide Times2, Order2, LongOrder, Plus2, On2, Product, Additive;
    OrderIsLong(P, q, p);
    ProductMultiple(a, P, q, q, p);
    OrderOf2(q, P, q, p);
    assert Cong(q, 0, q) by { CongIntro(q, 0, 1, q); }
    ReducedMultiple2(a, P, q, p);
  }
}
