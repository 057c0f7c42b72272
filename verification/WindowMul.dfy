// point_mul: a signed sliding window over the non-adjacent form, with a table
// of the odd multiples of P up to 31 P.  For every n > 0 and a point of every
// order r the course that Windows.MulOutcome computes is the one taken; the methods
// run on any other coordinates as well.
module WindowMul {
  import opened NumberTheory
  import opened Powers
  import opened Bits
  import opened Naf
  import opened EllipticCurve
  import opened PointGroup
  import opened Projective
  import opened Fp2
  import opened Curves
  import opened ScalarMul
  import opened Windows

  // ----- the table -----

  // P is a point of order r.
  ghost predicate Ordered(P: Pt, r: Pos, p: Pos) { GroupLaw(p) && HasOrder(P, r, p) }

  // x[j], y[j] hold j P for every odd j that can be reached.  On a point of order
  // two only the first slot is used, whose ordinate may be p in place of 0.
  ghost predicate OddMultiples(x: array<int>, y: array<int>, n: nat, P: Pt, r: Pos, p: Pos)
    reads x, y
  {
    && x.Length == y.Length == 2 * WINDOW_POWER + 2 && x != y
    && (Ordered(P, r, p) ==>
          forall j: int :: 0 <= j < x.Length && j < n && j % 2 == 1 && SlotOk(j, r) ==>
            Slot(x[j], y[j], Times(j, P, p), r, p))
  }

  ghost predicate Slot(x: int, y: int, T: Pt, r: Pos, p: Pos) {
    T.A? && x == T.x && Cong(y, T.y, p) && (r > 2 ==> y == T.y)
  }

  lemma TableStep(j: nat, P: Pt, r: Pos, p: Pos)
    requires GroupLaw(p) && HasOrder(P, r, p) && j >= 3 && j % 2 == 1 && SlotOk(j, r)
    ensures SlotOk(j - 2, r) && r > 2
    ensures var S, T := Times(j - 2, P, p), Times(2, P, p);
            && S.A? && T.A? && !Cong(T.x - S.x, 0, p)
            && Times(j, P, p) == Third(S, T.x, ChordSlope(S, T, p), p)
  {
    hide Times, Rem, HasOrder, Third, ChordSlope, SlotOk, OnCurve, Plus, Associative;
    OrderOf(0, P, r, p);
    SlotStep(j, r);
    ChordSafe(j - 2, 2, P, r, p);
    TimesAdd(j - 2, 2, P, p);
    ProperThird(Times(j - 2, P, p), Times(2, P, p), p);
  }

  lemma ProperThird(S: Pt, T: Pt, p: Pos)
    requires S.A? && T.A? && OnCurve(S, p) && OnCurve(T, p) && S.x != T.x
    ensures Plus(S, T, p) == Third(S, T.x, ChordSlope(S, T, p), p) && !Cong(T.x - S.x, 0, p)
  {
    DistinctNotCong(S.x, T.x, p);
  }

  lemma FirstDouble(P: Pt, r: Pos, p: Pos)
    requires GroupLaw(p) && HasOrder(P, r, p) && r > 2
    ensures P.A? && !Cong(P.y, 0, p) && Times(2, P, p) == Third(P, P.x, TangentSlope(P, p), p)
  {
    hide Times, Third, TangentSlope, Rem, HasOrder;
    OrderOf(2, P, r, p);
    CanonicalNonZero(2, r);
    TimesOne(P, p);
    TimesTwo(1, P, p);
    DoubleFinite(P, p);
  }

  // An ordinate p occurs only for a point of order two.
  lemma FirstSlot(x: int, y: int, P: Pt, r: Pos, p: Pos)
    requires GroupLaw(p) && HasOrder(P, r, p) && P == A(x, if y == p then 0 else y)
    ensures Slot(x, y, Times(1, P, p), r, p)
  {
    hide Times, Associative, Plus, HasOrder;
    TimesOne(P, p);
    OrderOf(2, P, r, p);
    if y == p {
      CongIntro(p, 0, 1, p);
      if r > 2 { FirstDouble(P, r, p); }
    }
  }

  lemma ExactSlot(x: int, y: int, T: Pt, r: Pos, p: Pos)
    requires Slot(x, y, T, r, p) && r > 2
    ensures A(x, y) == T
  {
  }

  lemma FilledSlot(x: int, y: int, T: Pt, r: Pos, p: Pos)
    requires A(x, y) == T
    ensures Slot(x, y, T, r, p)
  {
  }

  method BuildTable(P: Point, p: Pos, ghost r: Pos) returns (x: array<int>, y: array<int>)
    requires Field(p)
    ensures fresh(x) && fresh(y) && OddMultiples(x, y, 2 * WINDOW_POWER + 2, P.Meant(p), r, p)
  {
    hide Times, Third, TangentSlope, HasOrder, OnCurve, SlotOk, Slot, Ordered, OddMultiples, Associative, Prime;
    ghost var base := P.Meant(p);
    x := new int[2 * WINDOW_POWER + 2];
    y := new int[2 * WINDOW_POWER + 2];
    x[1], y[1] := P.x.a, P.y.a;
    x[2], y[2] := ZzpPointDouble(x[1], y[1], p);
    StartTable(x, y, base, r, p);
    var i := 1;
    while i <= WINDOW_POWER
      invariant 1 <= i <= WINDOW_POWER + 1 && (Ordered(base, r, p) && r > 2 ==> A(x[2], y[2]) == Times(2, base, p))
      invariant OddMultiples(x, y, 2 * i, base, r, p)
    {
      FillSlot(x, y, i, p, base, r);
      i := i + 1;
    }
  }

  lemma StartTable(x: array<int>, y: array<int>, P: Pt, r: Pos, p: Pos)
    requires Field(p) && x.Length == y.Length == 2 * WINDOW_POWER + 2 && x != y
    requires P == A(x[1], if y[1] == p then 0 else y[1])
    requires !Cong(y[1], 0, p) ==> A(x[2], y[2]) == Third(A(x[1], y[1]), x[1], TangentSlope(A(x[1], y[1]), p), p)
    ensures OddMultiples(x, y, 2, P, r, p)
    ensures Ordered(P, r, p) && r > 2 ==> A(x[2], y[2]) == Times(2, P, p)
  {
    hide Times, Third, TangentSlope, Rem, HasOrder, OnCurve, Slot;
    if Ordered(P, r, p) {
      FirstSlot(x[1], y[1], P, r, p);
      TimesOne(P, p);
      if r > 2 {
        FirstDouble(P, r, p);
        ExactSlot(x[1], y[1], P, r, p);
      }
    }
  }

  // One more odd multiple.
  method FillSlot(x: array<int>, y: array<int>, i: nat, p: Pos, ghost P: Pt, ghost r: Pos)
    requires Field(p) && 1 <= i <= WINDOW_POWER && OddMultiples(x, y, 2 * i, P, r, p)
    requires x.Length == y.Length == 2 * WINDOW_POWER + 2
    requires Ordered(P, r, p) && r > 2 ==> A(x[2], y[2]) == Times(2, P, p)
    modifies x, y
    ensures OddMultiples(x, y, 2 * i + 2, P, r, p)
    ensures x[2] == old(x[2]) && y[2] == old(y[2])
  {
    hide Times, Third, TangentSlope, ChordSlope, Rem, HasOrder, OnCurve, SlotOk, Slot, Associative, Prime;
    var j := 2 * i + 1;
    var k := j - 2;
    if Ordered(P, r, p) && SlotOk(j, r) {
      TableStep(j, P, r, p);
      ExactSlot(x[k], y[k], Times(k, P, p), r, p);
    }
    x[j], y[j] := ZzpPointAdd(x[k], y[k], x[2], y[2], p);
    if Ordered(P, r, p) && SlotOk(j, r) { FilledSlot(x[j], y[j], Times(j, P, p), r, p); }
  }

  // ----- one window -----

  method FindLow(s: array<int>, m: nat, ghost n: nat) returns (l: nat)
    requires IsNaf(n, s[..]) && m < s.Length
    ensures l == WindowLow(n, m)
  {
    hide NafDigit;
    ghost var digits := s[..];
    l := if m - WINDOW + 1 < 0 then 0 else m - WINDOW + 1;
    while l < m
      invariant l <= m && Low(n, l, m) == WindowLow(n, m)
    {
      assert s[l] == digits[l];
      if s[l] != 0 { break; }
      l := l + 1;
    }
  }

  // Where the multiplication stands: at k P, or stuck with a zero denominator, or
  // anywhere.
  ghost predicate At(s: Outcome, x: int, y: int, z: int, k: int, P: Pt, r: Pos, p: Pos) {
    match s
    case Right => Ordered(P, r, p) && Reps(x, y, z, Times(k, P, p), p)
    case Stuck => Cong(z, 0, p)
    case Open => true
  }

  // A doubling goes on to 2 e P unless that is O.
  lemma DoubleFacts(x: int, y: int, z: int, e: int, P: Pt, r: Pos, p: Pos)
    requires GroupLaw(p) && HasOrder(P, r, p) && Reps(x, y, z, Times(e, P, p), p)
    ensures var T := Times(e, P, p);
            && T.A? && OnCurve(T, p) && (T.y == 0 <==> Cong(2 * e, 0, r)) && Plus(T, T, p) == Times(2 * e, P, p)
  {
    hide Times, Plus, HasOrder, Rem, OnCurve, Associative;
    OrderOf(2 * e, P, r, p);
    TimesOnCurve(e, P, p);
    TimesTwo(e, P, p);
    var T := Times(e, P, p);
    if Plus(T, T, p) != O { DoubleFinite(T, p); } else { DoubleIsO(T, p); }
  }

  lemma DoubleIsO(T: Pt, p: Pos)
    requires Field(p) && T.A? && OnCurve(T, p) && Plus(T, T, p) == O
    ensures T.y == 0
  {
    ModIntro(0, 0, 0, p);
    if !Cong(T.y, 0, p) { TwoUnit(T.y, p); } else { CongSmall(T.y, 0, p); }
  }

  method DoubleAt(x0: int, y0: int, z0: int, p: Pos, ghost s: Outcome, ghost e: int, ghost P: Pt, ghost r: Pos)
    returns (x: int, y: int, z: int)
    requires Field(p) && At(s, x0, y0, z0, e, P, r, p)
    ensures At(After(s, 2 * e, r), x, y, z, 2 * e, P, r, p)
  {
    hide Times, Plus, HasOrder, Rem, OnCurve, Associative, Cong, Reps;
    if s == Right { DoubleFacts(x0, y0, z0, e, P, r, p); }
    x, y, z := ProjDouble(x0, y0, z0, p);
  }

  // The window's value is built from its low end while R is doubled once for
  // every digit of the window.
  method DoubleWindow(s: array<int>, n: nat, m: nat, l: nat, x0: int, y0: int, z0: int, p: Pos,
                      ghost st: Outcome, ghost P: Pt, ghost r: Pos)
    returns (j: int, x: int, y: int, z: int)
    requires IsNaf(n, s[..]) && l <= m < l + WINDOW && m < s.Length && NafDigit(n, l) != 0
    requires Field(p) && At(st, x0, y0, z0, Rest(n, m + 1), P, r, p)
    ensures j == WindowValue(n, m, l) && j % 2 == 1 && -21 <= j <= 21
    ensures At(After(st, Upper(n, m, l), r), x, y, z, Upper(n, m, l), P, r, p)
  {
    hide Times, Plus, HasOrder, Rem, OnCurve, Associative, NafDigit, Rest, IPow, BitLen, WindowState, At, Cong, After,
         Upper, WindowValue;
    ghost var digits := s[..];
    j := s[l];
    WindowStart(n, m, l);
    x, y, z := DoubleAt(x0, y0, z0, p, st, Rest(n, m + 1), P, r);
    ghost var e: int := 2 * Rest(n, m + 1);
    var i := 1;
    var k := l + 1;
    while k <= m
      invariant l < k <= m + 1 && WindowState(n, m, l, k, i, j, e)
      invariant At(After(st, e, r), x, y, z, e, P, r, p)
    {
      WindowStep(n, m, l, k, i, j, e);
      AfterTwice(st, e, r);
      assert s[k] == digits[k];
      i := i * 2;
      j := j + s[k] * i;
      x, y, z := DoubleAt(x, y, z, p, After(st, e, r), e, P, r);
      e := 2 * e;
      k := k + 1;
    }
    WindowEnd(n, m, l, i, j, e);
  }

  // Once O has been met it stays met.
  lemma AfterTwice(s: Outcome, e: int, r: Pos)
    ensures After(After(s, e, r), 2 * e, r) == After(s, 2 * e, r)
  {
    if Cong(e, 0, r) { CongMul(2, 2, e, 0, r); }
  }

  // j P for a window value j, as it is taken from the table.
  lemma SignedMultiple(x: array<int>, y: array<int>, j: int, P: Pt, r: Pos, p: Pos)
    requires GroupLaw(p) && HasOrder(P, r, p) && OddMultiples(x, y, 2 * WINDOW_POWER + 2, P, r, p)
    requires -21 <= j <= 21 && j % 2 == 1 && SlotOk(Abs(j), r)
    ensures var T := Times(j, P, p);
            && T.A? && OnCurve(T, p) && Abs(j) < x.Length == y.Length && x[Abs(j)] == T.x
            && Cong(if j < 0 then p - y[Abs(j)] else y[Abs(j)], T.y, p)
  {
    hide Times, Plus, Associative, SlotOk, HasOrder, OnCurve;
    var k := Abs(j);
    OrderOf(j, P, r, p);
    SlotFinite(j, r);
    TimesOnCurve(j, P, p);
    assert Slot(x[k], y[k], Times(k, P, p), r, p);
    if j < 0 {
      NegTimes(k, P, p);
      NegatedSlot(y[k], Times(k, P, p), p);
    }
  }

  lemma NegatedSlot(y: int, T: Pt, p: Pos)
    requires T.A? && Cong(y, T.y, p)
    ensures Cong(p - y, Neg(T, p).y, p)
  {
    CongMod(-T.y, p);
    CongIntro(p - y, -y, 1, p);
    CongAdd(0, 0, y, T.y, p);
  }

  // The addition of j P to e P is a proper chord unless they are equal or
  // opposite.
  lemma WindowSum(e: int, j: int, P: Pt, r: Pos, p: Pos)
    requires GroupLaw(p) && HasOrder(P, r, p) && !Cong(e, 0, r) && !Cong(j, 0, r)
    ensures var S, T := Times(e, P, p), Times(j, P, p);
            && S.A? && T.A? && OnCurve(S, p) && OnCurve(T, p)
            && (S.x == T.x <==> Cong(e, j, r) || Cong(e + j, 0, r))
            && Plus(S, T, p) == Times(e + j, P, p)
  {
    hide Times, Plus, Associative, HasOrder, OnCurve, Cong;
    OrderOf(0, P, r, p);
    ChordSafe(e, j, P, r, p);
    TimesAdd(e, j, P, p);
  }

  // Mixing in the table entry that the window's value selects.
  method MixAt(xt: array<int>, yt: array<int>, j0: int, x0: int, y0: int, z0: int, p: Pos,
               ghost s: Outcome, ghost e: int, ghost P: Pt, ghost r: Pos)
    returns (x: int, y: int, z: int)
    requires Field(p) && OddMultiples(xt, yt, 2 * WINDOW_POWER + 2, P, r, p)
    requires -21 <= j0 <= 21 && j0 % 2 == 1 && At(s, x0, y0, z0, e, P, r, p)
    ensures At(Mixed(s, e, j0, r), x, y, z, e + j0, P, r, p)
  {
    hide Times, Plus, HasOrder, Rem, OnCurve, Associative, Cong, Reps, OddMultiples, SlotOk;
    assert xt.Length == yt.Length == 2 * WINDOW_POWER + 2 by { TableSize(xt, yt, P, r, p); }
    if s == Right && SlotOk(Abs(j0), r) {
      OrderOf(0, P, r, p);
      SignedMultiple(xt, yt, j0, P, r, p);
      SlotFinite(j0, r);
      FiniteMultiple(x0, y0, z0, e, P, r, p);
      WindowSum(e, j0, P, r, p);
    }
    var j := j0;
    if j < 0 {
      j := -j;
      var negated := p - yt[j];
      x, y, z := ProjMixIn(x0, y0, z0, xt[j], negated, p);
    } else {
      x, y, z := ProjMixIn(x0, y0, z0, xt[j], yt[j], p);
    }
  }

  lemma TableSize(x: array<int>, y: array<int>, P: Pt, r: Pos, p: Pos)
    requires OddMultiples(x, y, 2 * WINDOW_POWER + 2, P, r, p)
    ensures x.Length == y.Length == 2 * WINDOW_POWER + 2
  {
  }

  lemma FiniteMultiple(x: int, y: int, z: int, e: int, P: Pt, r: Pos, p: Pos)
    requires HasOrder(P, r, p) && Reps(x, y, z, Times(e, P, p), p)
    ensures !Cong(e, 0, r)
  {
    OrderOf(e, P, r, p);
  }

  // One window: double, and mix in the table entry that its value selects.
  method WindowIteration(s: array<int>, xt: array<int>, yt: array<int>, n: nat, m: nat, l: nat,
                         x0: int, y0: int, z0: int, p: Pos, ghost st: Outcome, ghost P: Pt, ghost r: Pos)
    returns (x: int, y: int, z: int)
    requires IsNaf(n, s[..]) && l <= m < l + WINDOW && m < s.Length && NafDigit(n, l) != 0
    requires Field(p) && OddMultiples(xt, yt, 2 * WINDOW_POWER + 2, P, r, p)
    requires At(st, x0, y0, z0, Rest(n, m + 1), P, r, p)
    ensures var e := Upper(n, m, l);
            At(Mixed(After(st, e, r), e, WindowValue(n, m, l), r), x, y, z, Rest(n, l), P, r, p)
  {
    hide Times, Plus, HasOrder, Rem, OnCurve, Associative, NafDigit, Rest, IPow, BitLen, OddMultiples, At, Mixed,
         After, Cong, Upper;
    var j;
    j, x, y, z := DoubleWindow(s, n, m, l, x0, y0, z0, p, st, P, r);
    x, y, z := MixAt(xt, yt, j, x, y, z, p, After(st, Upper(n, m, l), r), Upper(n, m, l), P, r);
  }

  // ----- point_mul -----

  // The first window's value; the branch of the source for a negative one
  // cannot be reached.
  method FirstWindow(s: array<int>, n: nat, m: nat, l: nat) returns (j: int)
    requires n > 0 && IsNaf(n, s[..]) && m == Top(n) && l == WindowLow(n, m)
    ensures j == Rest(n, l) && 0 < j <= 21 && j % 2 == 1
  {
    hide NafDigit, Rest, IPow, BitLen, WindowState, Upper, WindowValue, WindowLow;
    ghost var digits := s[..];
    FirstValue(n);
    j := s[l];
    WindowStart(n, m, l);
    ghost var e: int := 2 * Rest(n, m + 1);
    var i := 1;
    var k := l + 1;
    while k <= m
      invariant l < k <= m + 1 && WindowState(n, m, l, k, i, j, e)
    {
      WindowStep(n, m, l, k, i, j, e);
      assert s[k] == digits[k];
      i := i * 2;
      j := j + s[k] * i;
      e := 2 * e;
      k := k + 1;
    }
    WindowEnd(n, m, l, i, j, e);
  }

  // R = n P for P of order r, when the course is Right.  z is what the final
  // inversion is given.  The infinity flag is never set.
  method PointMul(R: Point, n: nat, P: Point, p: Pos, ghost r: Pos) returns (ghost z: int)
    requires n > 0 && Field(p) && R.x != R.y
    modifies R, R.x, R.y
    ensures !R.infinity && Canonical(R.x.Val(), p) && Canonical(R.y.Val(), p)
    ensures Ordered(old(P.Meant(p)), r, p) && MulOutcome(n, r) == Right ==>
              Invertible(z, p) && R.Special(p) && R.Real() == Times(n, old(P.Meant(p)), p)
    ensures Ordered(old(P.Meant(p)), r, p) && MulOutcome(n, r) == Stuck ==> !Invertible(z, p)
  {
    hide Times, Plus, HasOrder, Rem, OnCurve, Associative, NafDigit, Rest, IPow, Top, BitLen, OddMultiples, At,
         WindowLow, Walk, Mixed, After, Cong, SlotOk, Upper, WindowValue, Ordered;
    ghost var base := P.Meant(p);
    ghost var whole := if Ordered(base, r, p) then MulOutcome(n, r) else Open;
    var s := Recode(n);
    ghost var digits := s[..];
    var xt, yt := BuildTable(P, p, r);
    var m: int := BitLen(n);
    TopIs(n, digits);
    if s[m] == 0 { m := m - 1; }
    var l: int := FindLow(s, m, n);
    var j := FirstWindow(s, n, m, l);
    StartWindow(xt, yt, j, base, p, r);
    var rx, ry, rz := xt[j], yt[j], 1;
    m := l - 1;
    ghost var st := if Ordered(base, r, p) && SlotOk(j, r) then Right else Open;
    while m >= 0
      invariant -1 <= m < Top(n) && s[..] == digits && OddMultiples(xt, yt, 2 * WINDOW_POWER + 2, base, r, p)
      invariant whole == if st == Right then Walk(n, m, r) else st
      invariant At(st, rx, ry, rz, Rest(n, m + 1), base, r, p)
    {
      assert s[m] == digits[m];
      if s[m] == 0 {
        WalkDigit(n, m, r);
        RestStep(n, m);
        rx, ry, rz := DoubleAt(rx, ry, rz, p, st, Rest(n, m + 1), base, r);
        st := After(st, 2 * Rest(n, m + 1), r);
        m := m - 1;
      } else {
        WalkWindow(n, m, r);
        l := FindLow(s, m, n);
        rx, ry, rz := WindowIteration(s, xt, yt, n, m, l, rx, ry, rz, p, st, base, r);
        st := Mixed(After(st, Upper(n, m, l), r), Upper(n, m, l), WindowValue(n, m, l), r);
        m := l - 1;
      }
      StaysOff();
    }
    z := rz;
    EmptyWalk(n, m, r);
    FinishWindow(n, rx, ry, rz, st, base, r, p);
    var x, y := ToAffine(rx, ry, rz, p);
    R.SetReal(x, y);
  }

  // What is not right does not become right again.
  lemma StaysOff()
    ensures forall s, e, r :: s != Right ==> After(s, e, r) == s
    ensures forall s, e, j, r :: s != Right ==> Mixed(s, e, j, r) == s
  {
  }

  lemma TopIs(n: nat, s: seq<int>)
    requires n > 0 && IsNaf(n, s)
    ensures Top(n) == if s[BitLen(n)] == 0 then BitLen(n) - 1 else BitLen(n)
    ensures NafDigit(n, Top(n)) != 0
  {
    hide NafDigit, BitLen;
    TopDigit(n);
  }

  lemma StartWindow(xt: array<int>, yt: array<int>, j: int, P: Pt, p: Pos, r: Pos)
    requires Field(p) && OddMultiples(xt, yt, 2 * WINDOW_POWER + 2, P, r, p)
    requires 0 < j <= 21 && j % 2 == 1
    ensures j < xt.Length == yt.Length
    ensures At(if Ordered(P, r, p) && SlotOk(j, r) then Right else Open, xt[j], yt[j], 1, j, P, r, p)
  {
    hide Times, Plus, Associative, SlotOk;
    ModIntro(1, 0, 1, p); ModIntro(0, 0, 0, p);
    if Ordered(P, r, p) && SlotOk(j, r) { assert Slot(xt[j], yt[j], Times(j, P, p), r, p); }
  }

  lemma FinishWindow(n: nat, x: int, y: int, z: int, s: Outcome, P: Pt, r: Pos, p: Pos)
    requires Field(p) && At(s, x, y, z, Rest(n, 0), P, r, p)
    ensures Rest(n, 0) == n
    ensures s == Right ==> Invertible(z, p) && Reps(x, y, z, Times(n, P, p), p) && OnCurve(Times(n, P, p), p)
    ensures s == Stuck ==> !Invertible(z, p)
  {
    hide Times, Plus, Associative, Rest, HasOrder;
    RestZero(n);
    if s == Right {
      OrderOf(0, P, r, p);
      TimesOnCurve(n, P, p);
    }
    PrimeInvertible(z, p);
  }
}
