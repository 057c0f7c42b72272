// general_point_mul: the sliding-window method over point_add, for any point over
// F_p^2.
module GeneralMul {
  import opened NumberTheory
  import opened Powers
  import opened Bits
  import opened EllipticCurve
  import opened Fp2
  import opened Curves
  import opened PointAddition
  import opened ExtensionGroup
  import opened GeneralCourse

  // R holds the point T of E/F_p.
  ghost predicate IsPoint(R: Point, T: Pt)
    reads R, R.x, R.y
  {
    if T.O? then R.infinity else !R.infinity && R.x.Val() == G(T.x, 0) && R.y.Val() == G(T.y, 0)
  }

  // R holds what a trace has reached.
  ghost predicate Follows(R: Point, s: Trace, p: Pos)
    reads R, R.x, R.y
  {
    Held(R) == s.at && Canonical2(s.at, p)
  }

  // R = U + V, where R may be U, V or both.
  method AddTraces(R: Point, U: Point, V: Point, p: Pos, ghost s: Trace, ghost t: Trace)
    requires Separate(R, U) && Separate(R, V) && Field2(p) && Follows(U, s, p) && Follows(V, t, p)
    modifies R, R.x, R.y
    ensures Follows(R, Join(s, t, p), p)
  {
    hide CodeSum, On2, Clash, Canonical2, Prime;
    SumPoints(R, U, V, p);
  }

  // ----- the table -----

  ghost predicate Distinct(g: seq<Point>) {
    && |g| == 2 * WINDOW_POWER + 2
    && (forall k :: 0 <= k < |g| ==> g[k].x != g[k].y)
    && forall k, l :: 0 <= k < l < |g| ==> g[k] != g[l] && {g[k].x, g[k].y} !! {g[l].x, g[l].y}
  }

  // g[j] holds its entry for odd j below n.
  ghost predicate OddTable(g: seq<Point>, n: nat, P: Pt2, p: Pos)
    requires |g| == 2 * WINDOW_POWER + 2
    reads set k | 0 <= k < |g| :: g[k], set k | 0 <= k < |g| :: g[k].x, set k | 0 <= k < |g| :: g[k].y
  {
    forall j: int :: 0 <= j < n && j < |g| && j % 2 == 1 ==> Follows(g[j], Slot(j, P, p), p)
  }

  method NewPoints() returns (g: seq<Point>)
    ensures Distinct(g)
    ensures forall k :: 0 <= k < |g| ==> fresh(g[k]) && fresh(g[k].x) && fresh(g[k].y)
  {
    g := [];
    while |g| < 2 * WINDOW_POWER + 2
      invariant |g| <= 2 * WINDOW_POWER + 2
      invariant forall k :: 0 <= k < |g| ==> fresh(g[k]) && fresh(g[k].x) && fresh(g[k].y) && g[k].x != g[k].y
      invariant forall k, l :: 0 <= k < l < |g| ==> g[k] != g[l] && {g[k].x, g[k].y} !! {g[l].x, g[l].y}
    {
      var e := new Point();
      g := g + [e];
    }
  }

  method BuildTable(P: Point, p: Pos) returns (g: seq<Point>)
    requires P.x != P.y && Field2(p) && Canonical2(Held(P), p)
    ensures Distinct(g) && (forall k :: 0 <= k < |g| ==> fresh(g[k]) && fresh(g[k].x) && fresh(g[k].y))
    ensures OddTable(g, 2 * WINDOW_POWER + 2, Held(P), p)
  {
    hide Follows, Prime, Join;
    ghost var base := Held(P);
    g := NewPoints();
    g[1].Set(P);
    FirstSlots(P, g[1], p);
    AddTraces(g[2], P, P, p, Slot(1, base, p), Slot(1, base, p));
    var i := 1;
    while i <= WINDOW_POWER
      invariant 1 <= i <= WINDOW_POWER + 1
      invariant Follows(g[2], Slot(2, base, p), p) && OddTable(g, 2 * i, base, p)
    {
      TableStep(g, i, p, base);
      i := i + 1;
    }
  }

  lemma FirstSlots(P: Point, R: Point, p: Pos)
    requires Canonical2(Held(P), p) && Held(R) == Held(P)
    ensures Follows(P, Slot(1, Held(P), p), p) && Follows(R, Slot(1, Held(P), p), p)
    ensures Slot(2, Held(P), p) == Join(Slot(1, Held(P), p), Slot(1, Held(P), p), p)
  {
    hide Join, Canonical2;
  }

  method TableStep(g: seq<Point>, i: nat, p: Pos, ghost P: Pt2)
    requires Distinct(g) && 1 <= i <= WINDOW_POWER && Field2(p)
    requires Follows(g[2], Slot(2, P, p), p) && OddTable(g, 2 * i, P, p)
    modifies g[2 * i + 1], g[2 * i + 1].x, g[2 * i + 1].y
    ensures Follows(g[2], Slot(2, P, p), p) && OddTable(g, 2 * i + 2, P, p)
  {
    hide Follows, Prime, Join;
    var j := 2 * i + 1;
    AddTraces(g[j], g[j - 2], g[2], p, Slot(j - 2, P, p), Slot(2, P, p));
  }

  // ----- the scalar multiplication -----

  ghost predicate Apart(R: Point, g: seq<Point>) {
    R.x != R.y && Distinct(g) && forall k :: 0 <= k < |g| ==> R != g[k] && {R.x, R.y} !! {g[k].x, g[k].y}
  }

  // One window: a doubling for each bit of m..l, then the odd multiple collected
  // in j.
  method AddWindow(R: Point, g: seq<Point>, p: Pos, n: nat, m: nat, l: nat, ghost s: Trace, ghost P: Pt2)
    requires l <= m < l + WINDOW && Bit(n, m) == 1 && Bit(n, l) == 1 && Apart(R, g) && Field2(p)
    requires OddTable(g, 2 * WINDOW_POWER + 2, P, p) && Follows(R, s, p)
    modifies R, R.x, R.y
    ensures Follows(R, Join(Doubled(s, m - l + 1, p), Slot(WindowBits(n, m, l), P, p), p), p)
    ensures OddTable(g, 2 * WINDOW_POWER + 2, P, p)
  {
    hide Follows, Prime, Shift, Bit, Join, Slot;
    var j := 1;
    assert WindowBits(n, m, m) == 1 by { assert WindowBits(n, m, m + 1) == 0; }
    assert Doubled(s, 1, p) == Join(s, s, p);
    AddTraces(R, R, R, p, s, s);
    var k := m - 1;
    while k >= l
      invariant l - 1 <= k < m
      invariant j == WindowBits(n, m, k + 1) && Follows(R, Doubled(s, m - k, p), p)
      invariant OddTable(g, 2 * WINDOW_POWER + 2, P, p)
    {
      j := 2 * j;
      if Bit(n, k) == 1 { j := j + 1; }
      AddTraces(R, R, R, p, Doubled(s, m - k, p), Doubled(s, m - k, p));
      k := k - 1;
    }
    WindowBitsBound(n, m, l);
    AddTraces(R, R, g[j], p, Doubled(s, m - l + 1, p), Slot(j, P, p));
  }

  method SetO(P: Point)
    requires P.x != P.y
    modifies P, P.x, P.y
    ensures P.infinity && P.x.Val() == ZERO && P.y.Val() == ONE
  {
    P.x.SetZero();
    P.y.SetOne();
    P.infinity := true;
  }

  // Q = a P as the additions of point_add give it, for every integer a and every
  // point in canonical coordinates.
  method GeneralPointMul(Q: Point, a: int, P: Point, c: Curve)
    requires Q.x != Q.y && P.x != P.y && Q.x != P.y && Field2(c.p) && Canonical2(Held(P), c.p)
    modifies Q, Q.x, Q.y
    ensures Held(Q) == Product(a, old(Held(P)), c.q, c.p).at
  {
    hide Follows, Prime, Rem, Walked, Canonical2, BitLen;
    ghost var base := Held(P);
    var n := Rem(a, c.q);
    if P.infinity {
      SetO(Q);
      return;
    }
    if a == 0 {
      SetO(Q);
      return;
    }
    var R := new Point();
    SetO(R);
    StartFollows(R, c.p);
    var g := BuildTable(P, c.p);
    Climb(R, g, n, c.p, START, base);
    Reached(R, Walked(START, n, BitLen(n) - 1, base, c.p), c.p);
    Q.Set(R);
  }

  lemma StartFollows(R: Point, p: Pos)
    requires R.infinity
    ensures Follows(R, START, p)
  {
  }

  lemma Reached(R: Point, s: Trace, p: Pos)
    requires Follows(R, s, p)
    ensures Held(R) == s.at
  {
  }

  // The loop over the bits of n.
  method Climb(R: Point, g: seq<Point>, n: nat, p: Pos, ghost start: Trace, ghost P: Pt2)
    requires Field2(p) && Apart(R, g) && OddTable(g, 2 * WINDOW_POWER + 2, P, p) && Follows(R, start, p)
    modifies R, R.x, R.y
    ensures Follows(R, Walked(start, n, BitLen(n) - 1, P, p), p)
  {
    hide Follows, Prime, Shift, Bit, BitLen, Join, Doubled, Slot, WindowBits, Walked;
    ghost var whole := Walked(start, n, BitLen(n) - 1, P, p);
    ghost var s := start;
    var m := BitLen(n) - 1;
    while m >= 0
      invariant -1 <= m < BitLen(n)
      invariant Follows(R, s, p) && Walked(s, n, m, P, p) == whole
      invariant OddTable(g, 2 * WINDOW_POWER + 2, P, p)
    {
      if Bit(n, m) == 0 {
        WalkedBit(s, n, m, P, p);
        AddTraces(R, R, R, p, s, s);
        s := Join(s, s, p);
        m := m - 1;
      } else {
        WalkedWindow(s, n, m, P, p);
        var l := m - WINDOW + 1;
        if l < 0 { l := 0; }
        l := Scan1(n, l, m);
        assert l == WindowEnd(n, m);
        AddWindow(R, g, p, n, m, l, s, P);
        s := Join(Doubled(s, m - l + 1, p), Slot(WindowBits(n, m, l), P, p), p);
        m := l - 1;
      }
    }
    WalkedDone(s, n, m, P, p);
  }
}
