// The windows that point_mul cuts the signed digits of n into, and what becomes
// of the multiplication on a point of order r, window by window.
module Windows {
  import opened NumberTheory
  import opened Powers
  import opened Bits
  import opened Naf
  import opened Fp2
  import opened Curves
  import opened ScalarMul

  // The first non-zero digit at or after l, or m.
  function Low(n: nat, l: nat, m: nat): (r: nat)
    requires l <= m
    ensures l <= r <= m && (NafDigit(n, m) != 0 ==> NafDigit(n, r) != 0)
    decreases m - l
  {
    if l < m && NafDigit(n, l) == 0 then Low(n, l + 1, m) else l
  }

  // The low end of the window that starts at digit m.
  function WindowLow(n: nat, m: nat): (l: nat)
    ensures l <= m < l + WINDOW && (NafDigit(n, m) != 0 ==> NafDigit(n, l) != 0)
  {
    Low(n, if m < WINDOW then 0 else m - WINDOW + 1, m)
  }

  // ----- the value of a window -----

  // After the digits l..k-1 of the window m..l: i is the weight of the last one,
  // j their value and e what the digits above have been multiplied up to.
  ghost predicate WindowState(n: nat, m: nat, l: nat, k: nat, i: int, j: int, e: int) {
    && l < k <= m + 1
    && i == P2(k - 1 - l) && i >= 1 && j % 2 == 1 && WindowBound(j, i, NafDigit(n, k - 1))
    && Rest(n, l) == j + 2 * (i * Rest(n, k))
    && e == P2(k - l) * Rest(n, m + 1)
  }

  predicate WindowBound(j: int, i: int, d: int) {
    var b := if d != 0 then 4 * i - 1 else 2 * i - 1;
    -b <= 3 * j <= b
  }

  lemma WindowStart(n: nat, m: nat, l: nat)
    requires l <= m && NafDigit(n, l) != 0
    ensures WindowState(n, m, l, l + 1, 1, NafDigit(n, l), 2 * Rest(n, m + 1))
  {
    hide NafDigit, Rest, IPow;
    RestStep(n, l);
    P2Zero(); P2Positive(0);
  }

  lemma WindowStep(n: nat, m: nat, l: nat, k: nat, i: int, j: int, e: int)
    requires k <= m && WindowState(n, m, l, k, i, j, e)
    ensures WindowState(n, m, l, k + 1, i * 2, j + NafDigit(n, k) * (i * 2), 2 * e)
  {
    hide Rest, NafDigit, IPow, WindowBound;
    P2Positive(k - 1 - l); P2Positive(k - l);
    TwiceProduct(P2(k - l), Rest(n, m + 1));
    RestStep(n, k - 1);
    RestStep(n, k);
    BoundStep(j, i, NafDigit(n, k - 1), NafDigit(n, k));
    WindowArithmetic(i, NafDigit(n, k), Rest(n, k + 1));
  }

  lemma BoundStep(j: int, i: int, d: int, d': int)
    requires WindowBound(j, i, d) && i >= 1 && -1 <= d' <= 1 && (d != 0 ==> d' == 0) && j % 2 == 1
    ensures WindowBound(j + d' * (i * 2), i * 2, d') && (j + d' * (i * 2)) % 2 == 1
  {
    assert d' == 0 || d' == 1 || d' == -1;
  }

  lemma WindowEnd(n: nat, m: nat, l: nat, i: int, j: int, e: int)
    requires m < l + WINDOW && WindowState(n, m, l, m + 1, i, j, e)
    ensures WindowValue(n, m, l) == j && e == Upper(n, m, l)
    ensures j % 2 == 1 && -21 <= j <= 21 && j < P2(m - l + 1)
  {
    hide Rest, NafDigit, IPow;
    P2Positive(m - l);
    SmallP2(m - l);
    TwiceProduct(i, Rest(n, m + 1));
  }

  lemma TwiceProduct(u: int, k: int)
    ensures 2 * (u * k) == (2 * u) * k
  {
  }

  lemma WindowArithmetic(i: int, d: int, r: int)
    ensures 2 * (i * (d + 2 * r)) == d * (i * 2) + 2 * ((i * 2) * r)
  {
    assert i * (d + 2 * r) == i * d + 2 * (i * r);
    assert (i * 2) * r == 2 * (i * r);
  }

  lemma SmallP2(w: nat)
    requires w <= 5
    ensures P2(w) <= 32 && (w <= 4 ==> P2(w) <= 16)
  {
    if w < 4 { P2Grows(w, 4); }
    P2Positive(0); P2Positive(1); P2Positive(2); P2Positive(3); P2Positive(4);
    P2Zero();
  }

  // What the digits above the window m..l stand for, and what the window adds.
  function Upper(n: nat, m: nat, l: nat): int
    requires l <= m
  {
    P2(m - l + 1) * Rest(n, m + 1)
  }

  function WindowValue(n: nat, m: nat, l: nat): int
    requires l <= m
  {
    Rest(n, l) - Upper(n, m, l)
  }

  // Every window is odd and at most 21 in absolute value.
  lemma WindowOdd(n: nat, m: nat, l: nat)
    requires l <= m < l + WINDOW && NafDigit(n, l) != 0
    ensures var j := WindowValue(n, m, l); j % 2 == 1 && -21 <= j <= 21 && j < P2(m - l + 1)
  {
    hide NafDigit, Rest, IPow, WindowState;
    WindowStart(n, m, l);
    var k, i, j, e := l + 1, 1, NafDigit(n, l), 2 * Rest(n, m + 1);
    while k <= m
      invariant l < k <= m + 1 && WindowState(n, m, l, k, i, j, e)
    {
      WindowStep(n, m, l, k, i, j, e);
      k, i, j, e := k + 1, i * 2, j + NafDigit(n, k) * (i * 2), 2 * e;
    }
    WindowEnd(n, m, l, i, j, e);
  }

  // ----- the course of a multiplication -----

  // Right: the multiple has been reached.  Stuck: an addition met equal or
  // opposite points, or a doubling a point of order two, and the denominator
  // is zero from then on.  Open: a table slot was read whose computation had to
  // divide by zero, so that its contents are arbitrary.
  datatype Outcome = Right | Stuck | Open

  // j P can be reached from P by adding 2 P again and again.
  predicate SlotOk(j: nat, r: Pos) { j == 1 || (r > 2 && (r % 2 == 0 || j < r)) }

  // Doubling up to e P.
  function After(s: Outcome, e: int, r: Pos): Outcome {
    if s == Right && Cong(e, 0, r) then Stuck else s
  }

  // Adding j P from the table to e P.
  function Mixed(s: Outcome, e: int, j: int, r: Pos): Outcome {
    if s != Right then s
    else if !SlotOk(Abs(j), r) then Open
    else if Cong(e, j, r) || Cong(e + j, 0, r) then Stuck
    else Right
  }

  // From the digits m..0, with the multiple for the higher digits reached.
  function Walk(n: nat, m: int, r: Pos): Outcome
    decreases m
  {
    if m < 0 then Right
    else if NafDigit(n, m) == 0 then
      var s := After(Right, 2 * Rest(n, m + 1), r);
      if s == Right then Walk(n, m - 1, r) else s
    else
      var l := WindowLow(n, m);
      var e := Upper(n, m, l);
      var s := Mixed(After(Right, e, r), e, WindowValue(n, m, l), r);
      if s == Right then Walk(n, l - 1, r) else s
  }

  // What point_mul makes of n on a point of order r.
  function MulOutcome(n: nat, r: Pos): Outcome
    requires n > 0
  {
    var l := WindowLow(n, Top(n));
    if !SlotOk(Rest(n, l), r) then Open else Walk(n, l - 1, r)
  }

  lemma WalkDigit(n: nat, m: nat, r: Pos)
    requires NafDigit(n, m) == 0
    ensures var s := After(Right, 2 * Rest(n, m + 1), r); Walk(n, m, r) == if s == Right then Walk(n, m - 1, r) else s
  {
    hide NafDigit, Rest;
  }

  lemma WalkWindow(n: nat, m: nat, r: Pos)
    requires NafDigit(n, m) != 0
    ensures var l := WindowLow(n, m);
            var e := Upper(n, m, l);
            var s := Mixed(After(Right, e, r), e, WindowValue(n, m, l), r);
            Walk(n, m, r) == if s == Right then Walk(n, l - 1, r) else s
  {
    hide NafDigit, Rest, Upper, WindowValue, WindowLow, SlotOk;
  }

  // ----- the table -----

  lemma OddNotZero(j: int, r: Pos)
    requires j % 2 == 1 && r % 2 == 0
    ensures !Cong(j, 0, r)
  {
    if Cong(j, 0, r) {
      var k := CongElim(j, 0, r);
      EvenMultiple(k, r);
    }
  }

  lemma EvenMultiple(k: int, r: int)
    requires r % 2 == 0
    ensures (k * r) % 2 == 0
  {
    var h := r / 2;
    assert k * r == 2 * (k * h);
  }

  // A usable slot, with either sign, holds a finite point.
  lemma SlotFinite(j: int, r: Pos)
    requires SlotOk(Abs(j), r) && j % 2 == 1 && r > 1
    ensures !Cong(j, 0, r)
  {
    if r % 2 == 0 {
      OddNotZero(j, r);
    } else if j > 0 {
      CanonicalNonZero(j, r);
    } else {
      CanonicalNonZero(-j, r);
      NegatedNonZero(j, r);
    }
  }

  // It comes from two usable points that a proper chord joins.
  lemma SlotStep(j: nat, r: Pos)
    requires SlotOk(j, r) && j % 2 == 1 && j >= 3 && r > 1
    ensures r > 2 && SlotOk(j - 2, r)
    ensures !Cong(j - 2, 0, r) && !Cong(2, 0, r) && !Cong(j - 2, 2, r) && !Cong(j, 0, r)
  {
    hide Rem, Cong;
    SlotFinite(j, r);
    SlotFinite(j - 2, r);
    CanonicalNonZero(2, r);
    CongSub(j - 2, 2, r);
    if r % 2 == 0 {
      OddNotZero(j - 4, r);
    } else if j > 4 {
      CanonicalNonZero(j - 4, r);
    } else {
      CanonicalNonZero(1, r);
      NegatedNonZero(-1, r);
    }
  }

  // No window reads an arbitrary slot when the order exceeds 21 or is even and
  // not 2.
  lemma {:induction false} WalkDecided(n: nat, m: int, r: Pos)
    requires r > 21 || (r > 2 && r % 2 == 0)
    ensures Walk(n, m, r) != Open
    decreases m
  {
    hide NafDigit, Rest, Upper, WindowValue, WindowLow;
    if m >= 0 {
      if NafDigit(n, m) == 0 {
        WalkDigit(n, m, r);
        WalkDecided(n, m - 1, r);
      } else {
        var l: int := WindowLow(n, m);
        WalkWindow(n, m, r);
        WindowOdd(n, m, l);
        WalkDecided(n, l - 1, r);
      }
    }
  }

  lemma OutcomeDecided(n: nat, r: Pos)
    requires n > 0 && (r > 21 || (r > 2 && r % 2 == 0))
    ensures MulOutcome(n, r) != Open
  {
    hide NafDigit, Rest, WindowLow, Top, Walk, WindowValue, Upper;
    var l: int := WindowLow(n, Top(n));
    FirstValue(n);
    WalkDecided(n, l - 1, r);
  }

  // The first window starts at the leading digit, so its value is positive and
  // is the whole of what the digits from l up stand for.
  lemma FirstValue(n: nat)
    requires n > 0
    ensures NafDigit(n, Top(n)) != 0
    ensures var l := WindowLow(n, Top(n)); 0 < Rest(n, l) <= 21 && Rest(n, l) % 2 == 1
    ensures var l := WindowLow(n, Top(n)); WindowValue(n, Top(n), l) == Rest(n, l) && Upper(n, Top(n), l) == 0
  {
    hide Rest, NafDigit, BitLen, IPow, WindowLow;
    TopDigit(n);
    var l := WindowLow(n, Top(n));
    RestPositive(n, l);
    WindowOdd(n, Top(n), l);
    assert P2(Top(n) - l + 1) * 0 == 0;
  }

  // A multiple that is reached is not O.
  lemma {:induction false} WalkFinite(n: nat, m: int, r: Pos)
    requires -1 <= m && Walk(n, m, r) == Right && !Cong(Rest(n, m + 1), 0, r)
    ensures !Cong(n, 0, r)
    decreases m
  {
    hide NafDigit, Rest, Upper, WindowLow, Walk, Cong, SlotOk;
    if m < 0 {
      RestZero(n);
    } else if NafDigit(n, m) == 0 {
      WalkDigit(n, m, r);
      RestStep(n, m);
      WalkFinite(n, m - 1, r);
    } else {
      WalkWindow(n, m, r);
      WalkFinite(n, WindowLow(n, m) as int - 1, r);
    }
  }

  lemma OutcomeFinite(n: nat, r: Pos)
    requires n > 0 && r > 1 && MulOutcome(n, r) == Right
    ensures !Cong(n, 0, r)
  {
    hide NafDigit, Rest, WindowLow, Top, Walk, WindowValue, Upper, SlotOk;
    var l: int := WindowLow(n, Top(n));
    FirstValue(n);
    SlotFinite(Rest(n, l), r);
    WalkFinite(n, l - 1, r);
  }

  // ----- multipliers below a large order -----

  // The value of the window that ends at digit 0, when the digits from m down
  // are still to come; 0 if no window ends there.
  function LastFrom(n: nat, m: int): int
    decreases m
  {
    if m < 0 then 0
    else if NafDigit(n, m) == 0 then LastFrom(n, m - 1)
    else if WindowLow(n, m) == 0 then n - P2(m + 1) * Rest(n, m + 1)
    else LastFrom(n, WindowLow(n, m) - 1)
  }

  function LastWindow(n: nat): int
    requires n > 0
  {
    LastFrom(n, WindowLow(n, Top(n)) - 1)
  }

  // The order r leaves room for every step but possibly the last.
  predicate Room(n: int, r: int) {
    0 < n && (n + 42 < r || (r % 2 == 1 && r > 86 && n < r))
  }

  // The last window meets an equal point.
  predicate WindowFails(n: nat, r: int)
    requires n > 0
  {
    n - 2 * LastWindow(n) == r
  }

  lemma {:induction false} RestAtMost(n: nat, i: nat)
    requires n > 0
    ensures Rest(n, i) <= n && (i > 0 ==> 2 * Rest(n, i) <= n + 1)
  {
    if i > 0 {
      RestAtMost(n, i - 1);
      RestStep(n, i - 1);
    }
  }

  lemma {:induction false} ShiftScale(n: nat, l: nat, w: nat)
    ensures P2(w) * Shift(n, l + w) <= Shift(n, l)
  {
    hide IPow, Shift, Bit;
    if w == 0 {
      P2Zero();
    } else {
      ShiftScale(n, l, w - 1);
      P2Positive(w - 1);
      ShiftStep(n, l + w - 1);
      HalfBound(Shift(n, l + w - 1), P2(w - 1));
    }
  }

  // No doubling inside a window reaches O.
  lemma DoublingSafe(n: nat, l: nat, w: nat, t: nat, r: Pos)
    requires Room(n, r) && 0 < w <= 5 && t <= w && l + w <= Top(n)
    ensures !Cong(P2(t) * Rest(n, l + w), 0, r)
  {
    hide Rem, IPow, Rest, Shift, Top;
    var k := Rest(n, l + w);
    RestPositive(n, l + w);
    RestAtMost(n, l + w);
    P2Positive(t);
    if n + 42 < r {
      if t < w { P2Grows(t, w); }
      ShiftScale(n, l, w);
      RestBounds(n, l + w);
      ShiftAtMost(n, l);
      SmallP2(w);
      ScaleBound(P2(t), P2(w), k, Shift(n, l + w));
      CanonicalNonZero(P2(t) * k, r);
    } else {
      P2MultipleNonZero(t, k, r);
    }
  }

  lemma ScaleBound(u: int, v: int, k: int, s: int)
    requires 0 < u <= v && 0 < k <= s + 1
    ensures 0 < u * k <= v * s + v
  {
    Monotone(v, k, s + 1);
    Monotone(k, u, v);
    assert u * k > 0;
  }

  // The addition that closes a window.
  lemma WindowCollision(n: nat, l: nat, e: int, j: int, r: Pos)
    requires Room(n, r) && e + j == Rest(n, l) && l <= Top(n) && j % 2 == 1
    requires -21 <= j <= 21 && e > j && !Cong(e, 0, r)
    ensures !Cong(j, 0, r) && !Cong(e + j, 0, r)
    ensures Cong(e, j, r) <==> l == 0 && n - 2 * j == r
  {
    hide Rem, Rest, Top;
    RestPositive(n, l);
    RestAtMost(n, l);
    RestZero(n);
    CanonicalNonZero(e + j, r);
    if j > 0 {
      CanonicalNonZero(j, r);
    } else {
      CanonicalNonZero(-j, r);
      NegatedNonZero(j, r);
    }
    CongSub(e, j, r);
    var w := e - j;
    if w < r {
      CanonicalNonZero(w, r);
    } else if w == r {
      CongIntro(w, 0, 1, r);
    } else {
      CanonicalNonZero(w - r, r);
      CongIntro(w, w - r, 1, r);
    }
  }

  lemma SingleDoubling(n: nat, m: nat, r: Pos)
    requires n > 0 && Room(n, r) && m < Top(n) && NafDigit(n, m) == 0
    ensures !Cong(2 * Rest(n, m + 1), 0, r)
  {
    hide Rest, NafDigit, Top, Rem;
    RestPositive(n, m);
    RestAtMost(n, m);
    RestStep(n, m);
    CanonicalNonZero(Rest(n, m), r);
  }

  // The addition that closes the window m..l.
  lemma RoomWindow(n: nat, m: nat, l: nat, r: Pos)
    requires n > 0 && Room(n, r) && l <= m < l + WINDOW && m < Top(n) && NafDigit(n, l) != 0
    ensures var e, j := Upper(n, m, l), WindowValue(n, m, l);
            Mixed(After(Right, e, r), e, j, r) == if l == 0 && n - 2 * j == r then Stuck else Right
  {
    hide Rest, IPow, Top, NafDigit, Rem;
    var e, j := Upper(n, m, l), WindowValue(n, m, l);
    WindowOdd(n, m, l);
    RestPositive(n, m + 1);
    P2Positive(m - l + 1);
    Monotone(P2(m - l + 1), 1, Rest(n, m + 1));
    DoublingSafe(n, l, m - l + 1, m - l + 1, r);
    WindowCollision(n, l, e, j, r);
  }

  lemma {:induction false} RoomWalk(n: nat, m: int, r: Pos)
    requires n > 0 && Room(n, r) && -1 <= m < Top(n)
    ensures Walk(n, m, r) == if n - 2 * LastFrom(n, m) == r then Stuck else Right
    decreases m
  {
    hide Rest, IPow, Top, NafDigit, Walk, LastFrom, WindowLow, Upper, WindowValue, Mixed, Rem, Cong;
    LastStep(n, m);
    if m < 0 {
      EmptyWalk(n, m, r);
    } else if NafDigit(n, m) == 0 {
      WalkDigit(n, m, r);
      SingleDoubling(n, m, r);
      RoomWalk(n, m - 1, r);
    } else {
      var l: int := WindowLow(n, m);
      WalkWindow(n, m, r);
      RoomWindow(n, m, l, r);
      LowestWindow(n, m);
      RoomWalk(n, l - 1, r);
    }
  }

  lemma EmptyWalk(n: nat, m: int, r: Pos)
    requires m < 0
    ensures Walk(n, m, r) == Right && LastFrom(n, m) == 0
  {
  }

  lemma LowestWindow(n: nat, m: nat)
    ensures WindowValue(n, m, 0) == n - P2(m + 1) * Rest(n, m + 1)
    ensures LastFrom(n, -1) == 0
  {
    RestZero(n);
    hide Rest, IPow;
  }

  lemma LastStep(n: nat, m: int)
    ensures m >= 0 && NafDigit(n, m) == 0 ==> LastFrom(n, m) == LastFrom(n, m - 1)
    ensures m >= 0 && NafDigit(n, m) != 0 && WindowLow(n, m) == 0 ==> LastFrom(n, m) == n - P2(m + 1) * Rest(n, m + 1)
    ensures m >= 0 && NafDigit(n, m) != 0 && WindowLow(n, m) > 0 ==>
              LastFrom(n, m) == LastFrom(n, WindowLow(n, m) - 1)
  {
    hide NafDigit, WindowLow, IPow, Rest;
  }

  lemma {:induction false} LastBound(n: nat, m: int)
    ensures -21 <= LastFrom(n, m) <= 21
    decreases m
  {
    hide Rest, NafDigit, IPow, WindowLow, LastFrom, WindowValue;
    LastStep(n, m);
    if m < 0 {
      EmptyWalk(n, m, 1);
    } else if NafDigit(n, m) == 0 {
      LastBound(n, m - 1);
    } else {
      var l: int := WindowLow(n, m);
      if l == 0 {
        WindowOdd(n, m, 0);
        LowestWindow(n, m);
      } else {
        LastBound(n, l - 1);
      }
    }
  }

  // With room only the last window can fail, on an equal point, and not even
  // that one when the order exceeds n by more than 42.
  lemma RoomOutcome(n: nat, r: Pos)
    requires Room(n, r)
    ensures MulOutcome(n, r) == if WindowFails(n, r) then Stuck else Right
    ensures n + 42 < r ==> MulOutcome(n, r) == Right
  {
    hide Rest, Top, NafDigit, Walk, LastFrom, WindowLow, Upper, WindowValue;
    var l: int := WindowLow(n, Top(n));
    FirstValue(n);
    RoomWalk(n, l - 1, r);
    LastBound(n, l - 1);
  }

  // ----- failing inputs -----

  lemma NextRest(n: nat, i: nat, k: nat)
    requires Rest(n, i) == k
    ensures NafDigit(n, i) == Digit(k) && Rest(n, i + 1) == Above(k)
  {
  }

  // 95 = 2^7 - 2^5 - 1.
  lemma DigitsOf95()
    ensures Rest(95, 1) == 48 && NafDigit(95, 0) == -1 && NafDigit(95, 5) == -1 && NafDigit(95, 7) == 1
    ensures NafDigit(95, 1) == 0 && NafDigit(95, 2) == 0 && NafDigit(95, 3) == 0 && NafDigit(95, 4) == 0
  {
    hide Rest, NafDigit, Shift;
    RestZero(95);
    NextRest(95, 0, 95); NextRest(95, 1, 48); NextRest(95, 2, 24); NextRest(95, 3, 12);
    NextRest(95, 4, 6); NextRest(95, 5, 3); NextRest(95, 6, 2); NextRest(95, 7, 1);
  }

  // On points of order 97 the multiplier 95 is refused: the last window adds -P
  // to 96 P, which is -P.
  lemma FailingMultiplier()
    ensures Room(95, 97) && WindowFails(95, 97) && MulOutcome(95, 97) == Stuck
  {
    hide Rest, NafDigit, IPow, MulOutcome;
    DigitsOf95();
    P2Zero(); P2Positive(0);
    assert BitLen(95) == 7;
    assert Low(95, 3, 7) == Low(95, 4, 7) == Low(95, 5, 7) == 5;
    assert WindowLow(95, 7) == 5 && WindowLow(95, 0) == 0;
    assert LastFrom(95, 0) == -1;
    assert LastFrom(95, 2) == LastFrom(95, 1) == LastFrom(95, 0);
    assert LastFrom(95, 4) == LastFrom(95, 3) == LastFrom(95, 2);
    RoomOutcome(95, 97);
  }

  // On points of order 21 the multiplier 21 reads the slot for 21 P, which was
  // filled by dividing by zero.
  lemma OpenMultiplier()
    ensures MulOutcome(21, 21) == Open
  {
    hide Rest, NafDigit, Walk;
    RestZero(21);
    NextRest(21, 0, 21); NextRest(21, 1, 10); NextRest(21, 2, 5); NextRest(21, 3, 2); NextRest(21, 4, 1);
    NextRest(21, 5, 0);
    assert BitLen(21) == 5;
    assert WindowLow(21, 4) == 0;
  }

  // An odd multiplier of at most five digits is a single window.
  lemma SingleWindow(n: nat, r: Pos)
    requires n % 2 == 1 && BitLen(n) <= 4
    ensures MulOutcome(n, r) == if SlotOk(n, r) then Right else Open
  {
    hide Rest, NafDigit, Shift;
    RestZero(n);
    NextRest(n, 0, n);
    TopDigit(n);
    assert WindowLow(n, Top(n)) == 0;
  }
}
