// IBE_extract, IBE_extract_share and IBE_combine: private keys from the master
// key, from its shares, and from shares of the key itself.
module KeyShares {
  import opened NumberTheory
  import opened Powers
  import opened EllipticCurve
  import opened PointGroup
  import opened Fp2
  import opened Curves
  import opened Windows
  import opened WindowMul
  import opened PointAddition
  import opened GeneralMul
  import opened Shamir
  import opened ByteStrings
  import opened Serial
  import opened Parameters
  import opened Threshold
  import opened IdentityPoint

  // The coordinates that a point of E/F_p is stored with.
  function CoordsOf(T: Pt): Coords {
    if T.A? then Coords(G(T.x, 0), G(T.y, 0)) else Coords(ZERO, ONE)
  }

  predicate Plain(T: Pt) { T.A? && T.x >= 0 && T.y >= 0 }

  function KeyShare(i: int, T: Pt): Bytes
    requires Plain(T)
  {
    Encode([IntBytes(i), PointBytes(CoordsOf(T))])
  }

  // Their strings, with zero as the imaginary components.
  lemma PlainBytes(i: int, T: Pt)
    requires Plain(T)
    ensures PointBytes(CoordsOf(T)) == Encode([Encode([MpzBytes(T.x), [0]]), Encode([MpzBytes(T.y), [0]])])
    ensures KeyShare(i, T) == Encode([[0, 0, 0, i % 256], PointBytes(CoordsOf(T))])
  {
    hide Encode, MpzBytes;
    FirstByte(0);
  }

  // A multiplier that point_mul gets right on points of order q.
  ghost predicate Multiplier(n: int, q: Pos) { n > 0 && MulOutcome(n, q) == Right }

  lemma OrderPlain(k: int, P: Pt, q: Pos, p: Pos)
    requires GroupLaw(p) && HasOrder(P, q, p) && !Cong(k, 0, q)
    ensures Plain(Times(k, P, p)) && OnCurve(Times(k, P, p), p)
  {
    OrderOf(k, P, q, p);
    TimesOnCurve(k, P, p);
  }

  // The order of a non-zero multiple is the same when q is prime.
  lemma MultipleHasOrder(k: int, P: Pt, q: Pos, p: Pos)
    requires GroupLaw(p) && HasOrder(P, q, p) && Prime(q) && !Cong(k, 0, q)
    ensures HasOrder(Times(k, P, p), q, p)
  {
    hide Times, Cong, Associative, Plus;
    OrderPlain(k, P, q, p);
    OrderOf(q * k, P, q, p);
    TimesTimes(q, k, P, p);
    MultipleIsZeroCong(k, q);
    PrimeOrder(Times(k, P, p), q, p);
  }

  lemma MultipleIsZeroCong(k: int, q: Pos)
    ensures Cong(q * k, 0, q)
  {
    MultipleIsZero(k, q);
    ModIntro(0, 0, 0, q);
  }

  lemma StoredSpecial(R: Point, T: Pt, p: Pos)
    requires R.Special(p) && R.Real() == T
    ensures Plain(T) && Coords(R.x.Val(), R.y.Val()) == CoordsOf(T) && IsPoint(R, T)
  {
  }

  // ----- multiples -----

  // point_mul asserts that the multiplier is positive.  Without the assertion 0
  // reads a slot that was never written, and the result is arbitrary.
  method AnyMultiple(R: Point, n: nat, P: Point, p: Pos, ghost r: Pos)
    requires R.x != R.y && Field(p)
    modifies R, R.x, R.y
    ensures !R.infinity && Canonical(R.x.Val(), p) && Canonical(R.y.Val(), p)
    ensures Ordered(old(P.Meant(p)), r, p) && Multiplier(n, r) ==>
              R.Special(p) && R.Real() == Times(n, old(P.Meant(p)), p)
  {
    hide Times, HasOrder, MulOutcome, Associative, Prime, Ordered, Rem;
    if n == 0 {
      var x, y: int := *, *;
      R.SetReal(Rem(x, p), Rem(y, p));
    } else {
      ghost var z := PointMul(R, n, P, p, r);
    }
  }

  // ----- direct extraction -----

  // An identity whose hashed point, of order r, goes to a point of order q.
  ghost predicate Identity(digest: Bytes, c: Curve, r: Pos) {
    && Usable(c) && Prime(c.q) && (c.p + 1) % r == 0
    && Ordered(Hashed(digest, c.p), r, c.p) && Multiplier(c.p1onq, r)
  }

  function PointOfIdentity(digest: Bytes, c: Curve): Pt
    requires c.p % 3 == 2
  {
    Times(c.p1onq, Hashed(digest, c.p), c.p)
  }

  // map_byte_string_to_point followed by point_mul.
  method MultipleOfIdentity(d: Point, n: nat, digest: Bytes, c: Curve, ghost r: Pos)
    requires d.x != d.y && Usable(c)
    modifies d, d.x, d.y
    ensures !d.infinity && Canonical(d.x.Val(), c.p) && Canonical(d.y.Val(), c.p)
    ensures Identity(digest, c, r) ==> Ordered(PointOfIdentity(digest, c), c.q, c.p)
    ensures var T := Times(n, PointOfIdentity(digest, c), c.p);
            Identity(digest, c, r) && Multiplier(n, c.q) ==>
              Plain(T) && Coords(d.x.Val(), d.y.Val()) == CoordsOf(T)
  {
    hide Times, Associative, Plus, HasOrder, Rem, OnCurve, MulOutcome, Hashed, Prime, CoordsOf;
    MapToPoint(d, digest, c, r);
    ghost var D := PointOfIdentity(digest, c);
    if Identity(digest, c, r) { d.SpecialIsMeant(c.p); }
    AnyMultiple(d, n, d, c.p, c.q);
    if Identity(digest, c, r) && Multiplier(n, c.q) { StoredSpecial(d, Times(n, D, c.p), c.p); }
  }

  // The key for an identity is the master's multiple of its point.
  method Extract(master: Bytes, digest: Bytes, c: Curve, ghost r: Pos) returns (key: Bytes)
    requires Usable(c)
    ensures var T := Times(Big(master), PointOfIdentity(digest, c), c.p);
            Identity(digest, c, r) && Multiplier(Big(master), c.q) ==> Plain(T) && key == PointBytes(CoordsOf(T))
  {
    hide Times, HasOrder, Identity, Multiplier, CoordsOf, PointBytes, PointOfIdentity;
    var d := new Point();
    var x := InpRaw(master);
    MultipleOfIdentity(d, x, digest, c, r);
    key := SetPoint(d);
  }

  // The string packs the index i and some canonical point.
  ghost predicate Indexed(share: Bytes, i: int, p: Pos) {
    exists P: Coords :: Canonical(P.x, p) && Canonical(P.y, p) && share == Encode([IntBytes(i), PointBytes(P)])
  }

  // A share of the key from a share of the master, whatever string that is.
  method ExtractShare(mshare: Bytes, digest: Bytes, c: Curve, ghost r: Pos) returns (share: Bytes)
    requires Usable(c)
    ensures Indexed(share, IndexOf(mshare), c.p)
    ensures var T := Times(ValueOf(mshare), PointOfIdentity(digest, c), c.p);
            Identity(digest, c, r) && Multiplier(ValueOf(mshare), c.q) ==>
              Plain(T) && share == KeyShare(IndexOf(mshare), T)
  {
    hide Times, HasOrder, Identity, Multiplier, CoordsOf, PointBytes, Encode, PointOfIdentity, IndexOf, ValueOf,
         IntBytes;
    var i, y := ReadShare(mshare);
    var yd := new Point();
    MultipleOfIdentity(yd, y, digest, c, r);
    var bs1 := SetInt(i);
    var bs2 := SetPoint(yd);
    share := Join(bs1, bs2);
    ghost var P := Coords(yd.x.Val(), yd.y.Val());
    assert Canonical(P.x, c.p) && Canonical(P.y, c.p) && share == Encode([IntBytes(IndexOf(mshare)), PointBytes(P)]);
  }

  // ----- splitting with verification points -----

  // IBE_split_master as a whole.
  method SplitMaster(params: Params, master: Bytes, t: nat, n: nat, coefficients: seq<nat>, abscissas: seq<nat>,
                     p: Pos, ghost r: Pos)
    returns (mshare: seq<Bytes>)
    requires t > 0 && |coefficients| == t - 1 && |abscissas| == n && params.q > 0 && Field(p)
    modifies params`robustx, params`robustP, params`sharet, params`sharen
    ensures params.robustx == abscissas && params.sharet == t && params.sharen == n
    ensures |mshare| == |params.robustP| == n
    ensures forall i :: 0 <= i < n ==>
              mshare[i] == Share(i, Rem(Eval([Big(master)] + coefficients, abscissas[i]), params.q))
    ensures Ordered(params.Ppub.Meant(p), r, p) ==> forall i :: 0 <= i < n ==>
              var y := Rem(Eval([Big(master)] + coefficients, abscissas[i]), params.q);
              Multiplier(y, r) ==> params.robustP[i] == CoordsOf(Times(y, params.Ppub.Meant(p), p))
  {
    hide Times, HasOrder, Multiplier, CoordsOf, Rem, Eval, Share, Associative, Prime, Ordered;
    var y;
    mshare, y := SplitShares(params, master, t, n, coefficients, abscissas);
    params.robustP := [];
    ghost var q := params.q;
    ghost var good := Ordered(params.Ppub.Meant(p), r, p);
    for i := 0 to n
      invariant params.q == q && params.robustx == abscissas && params.sharet == t && params.sharen == n
      invariant |params.robustP| == i && good == Ordered(params.Ppub.Meant(p), r, p)
      invariant forall k :: 0 <= k < i && good && Multiplier(y[k], r) ==>
                  params.robustP[k] == CoordsOf(Times(y[k], params.Ppub.Meant(p), p))
    {
      var c := VerificationPoint(params.Ppub, y[i], p, r);
      params.robustP := params.robustP + [c];
    }
  }

  method VerificationPoint(Ppub: Point, y: nat, p: Pos, ghost r: Pos) returns (c: Coords)
    requires Field(p)
    ensures Ordered(Ppub.Meant(p), r, p) && Multiplier(y, r) ==> c == CoordsOf(Times(y, Ppub.Meant(p), p))
  {
    hide Times, HasOrder, Multiplier, CoordsOf, Associative, Prime, Ordered;
    var R := new Point();
    AnyMultiple(R, y, Ppub, p, r);
    c := Coords(R.x.Val(), R.y.Val());
    if Ordered(Ppub.Meant(p), r, p) && Multiplier(y, r) { StoredSpecial(R, Times(y, Ppub.Meant(p), p), p); }
  }

  // ----- combination -----

  predicate NoRepeats(index: seq<int>) {
    forall i, j :: 0 <= j < i < |index| ==> index[i] != index[j]
  }

  // The indices of any strings, or a refusal when two of them agree.
  method ReadIndices(kshare: seq<Bytes>, t: nat) returns (ok: bool, indices: seq<int>)
    requires t <= |kshare|
    ensures ok <==> NoRepeats(IndicesOf(kshare, t))
    ensures ok <==> forall i, j :: 0 <= j < i < t ==> IndexOf(kshare[i]) != IndexOf(kshare[j])
    ensures ok ==> indices == IndicesOf(kshare, t)
  {
    hide IndexOf;
    ghost var index := IndicesOf(kshare, t);
    assert forall i :: 0 <= i < t ==> index[i] == IndexOf(kshare[i]);
    indices := [];
    for i := 0 to t
      invariant indices == index[..i] && NoRepeats(index[..i])
    {
      var k := ReadIndex(kshare[i]);
      indices := indices + [k];
      for j := 0 to i
        invariant forall l :: 0 <= l < j ==> indices[i] != indices[l]
      {
        if indices[i] == indices[j] {
          assert IndexOf(kshare[i]) == index[i] == index[j];
          ok := false;
          return;
        }
      }
      assert forall l :: 0 <= l < i ==> index[i] != indices[l];
    }
    assert index[..t] == index;
    ok := true;
  }

  method ReadIndex(share: Bytes) returns (i: int)
    ensures i == IndexOf(share)
  {
    var bs1, bs2 := Split(share);
    i := IntFrom(bs1);
  }

  // The string carries the point y D.
  ghost predicate CarriesPoint(share: Bytes, y: nat, D: Pt, p: Pos) {
    Times(y, D, p).A? && PointOf(Halves(share).1) == CoordsOf(Times(y, D, p))
  }

  ghost predicate CarryPoints(kshare: seq<Bytes>, ys: seq<nat>, D: Pt, p: Pos) {
    |kshare| >= |ys| && forall i :: 0 <= i < |ys| ==> CarriesPoint(kshare[i], ys[i], D, p)
  }

  // ----- sums as point_add forms them -----

  // The multiplier after adding w P to e P: opposite points double the first.
  function Merged(e: int, w: int, q: Pos): int {
    if !Cong(e, 0, q) && Cong(e + w, 0, q) then 2 * e else e + w
  }

  // The multiplier that a sum of products reaches.
  function CodeDot(u: seq<int>, v: seq<int>, q: Pos): int
    requires |u| == |v|
  {
    if u == [] then 0 else Merged(CodeDot(u[..|u| - 1], v[..|v| - 1], q), u[|u| - 1] * v[|v| - 1], q)
  }

  ghost predicate NoPartialO(u: seq<int>, v: seq<int>, q: Pos)
    requires |u| == |v|
  {
    forall k :: 0 < k <= |u| ==> !Cong(Dot(u[..k], v[..k]), 0, q)
  }

  // Without a partial sum O it is the sum.
  lemma {:induction false} CodeDotIsDot(u: seq<int>, v: seq<int>, q: Pos)
    requires |u| == |v| && NoPartialO(u, v, q)
    ensures CodeDot(u, v, q) == Dot(u, v)
  {
    hide Cong;
    if u != [] {
      var n := |u| - 1;
      assert u[..n + 1] == u && v[..n + 1] == v;
      forall k | 0 < k <= n ensures !Cong(Dot(u[..n][..k], v[..n][..k]), 0, q) {
        assert u[..n][..k] == u[..k] && v[..n][..k] == v[..k];
      }
      CodeDotIsDot(u[..n], v[..n], q);
    }
  }

  lemma NextSum(u: seq<int>, v: seq<int>, i: nat, q: Pos)
    requires i < |u| == |v|
    ensures CodeDot(u[..i + 1], v[..i + 1], q) == Merged(CodeDot(u[..i], v[..i], q), u[i] * v[i], q)
  {
    assert u[..i + 1][..i] == u[..i] && v[..i + 1][..i] == v[..i];
  }

  // What point_add makes of opposite points is known for odd q; for q = 2 none may
  // meet.
  ghost predicate Summable(u: seq<int>, v: seq<int>, q: Pos)
    requires |u| == |v|
  {
    q % 2 == 1 || NoPartialO(u, v, q)
  }

  lemma SummableStep(u: seq<int>, v: seq<int>, i: nat, q: Pos)
    requires i < |u| == |v| && Summable(u, v, q)
    ensures q % 2 == 1 || !Cong(CodeDot(u[..i], v[..i], q) + u[i] * v[i], 0, q)
  {
    hide Cong;
    if q % 2 == 0 {
      forall k | 0 < k <= i ensures !Cong(Dot(u[..i][..k], v[..i][..k]), 0, q) {
        assert u[..i][..k] == u[..k] && v[..i][..k] == v[..k];
      }
      CodeDotIsDot(u[..i], v[..i], q);
      assert u[..i + 1][..i] == u[..i] && v[..i + 1][..i] == v[..i];
    }
  }

  lemma TwiceNonZero(e: int, q: Pos)
    requires Prime(q) && q % 2 == 1 && !Cong(e, 0, q)
    ensures !Cong(2 * e, 0, q)
  {
    CanonicalNonZero(2, q);
    NonZeroMul(2, e, q);
  }

  // The sum of opposite multiples.
  lemma OppositeMultiples(e: int, w: int, D: Pt, q: Pos, p: Pos, infinity: bool, x3: Gauss, y3: Gauss)
    requires Ordered(D, q, p) && p % 4 == 3 && Prime(q) && q % 2 == 1 && !Cong(e, 0, q) && Cong(e + w, 0, q)
    requires Times(e, D, p).A? && Times(w, D, p).A?
    requires var S, T := Times(e, D, p), Times(w, D, p);
             FiniteSum(G(S.x, 0), G(S.y, 0), G(T.x, 0), G(T.y, 0), infinity, x3, y3, p)
    ensures !infinity && Gives(x3, y3, Times(2 * e, D, p)) && !Cong(2 * e, 0, q)
  {
    hide Times, Plus, HasOrder, Associative, Prime, OnCurve, FiniteSum, Cong, Gives;
    var S, T := Times(e, D, p), Times(w, D, p);
    OrderOf(2 * e, D, q, p);
    TwiceNonZero(e, q);
    TimesOnCurve(e, D, p); TimesOnCurve(w, D, p);
    TimesTwo(e, D, p);
    TimesOpposite(w, e, D, q, p) by { assert w + e == e + w; }
    assert T == Neg(S, p);
    OppositeSum(S, infinity, x3, y3, p);
    if S.y == 0 { OrdinateDoubles(S, p); }
  }

  lemma OrdinateDoubles(S: Pt, p: Pos)
    requires S.A? && S.y == 0
    ensures Plus(S, S, p) == O
  {
    ModIntro(0, 0, 0, p);
  }

  // Adding w D to e D, where w D is not O.
  method AddKeyPart(d: Point, yP: Point, p: Pos, ghost good: bool, ghost e: int, ghost w: int,
                    ghost D: Pt, ghost q: Pos)
    requires d.x != d.y && yP.x != yP.y && {d.x, d.y} !! {yP.x, yP.y} && Field(p) && !yP.infinity
    requires Canonical(d.x.Val(), p) && Canonical(d.y.Val(), p) && Canonical(yP.x.Val(), p) && Canonical(yP.y.Val(), p)
    requires good ==>
               && Ordered(D, q, p) && p % 4 == 3 && Prime(q)
               && IsPoint(d, Times(e, D, p)) && IsPoint(yP, Times(w, D, p)) && !Cong(w, 0, q)
               && (q % 2 == 1 || !Cong(e + w, 0, q))
    modifies d, d.x, d.y
    ensures Canonical(d.x.Val(), p) && Canonical(d.y.Val(), p)
    ensures good ==> IsPoint(d, Times(Merged(e, w, q), D, p)) && !Cong(Merged(e, w, q), 0, q)
  {
    hide Times, Plus, HasOrder, Associative, Prime, OnCurve, FiniteSum, Rem, Cong, Canonical;
    ghost var S, T := Times(e, D, p), Times(w, D, p);
    if good {
      OrderOf(e, D, q, p); OrderOf(w, D, q, p); OrderOf(e + w, D, q, p);
      TimesOnCurve(e, D, p); TimesOnCurve(w, D, p);
      TimesAdd(e, w, D, p);
      PlusO(T, p);
    }
    ghost var o, x1, y1, x2, y2 := d.infinity, d.x.Val(), d.y.Val(), yP.x.Val(), yP.y.Val();
    PointAdd(d, d, yP, p);
    if !o { SumCanonical(x1, y1, x2, y2, d.infinity, d.x.Val(), d.y.Val(), p); }
    if good && S.A? {
      if Cong(e + w, 0, q) {
        OppositeMultiples(e, w, D, q, p, d.infinity, d.x.Val(), d.y.Val());
      } else {
        RealSum(S, T, d.infinity, d.x.Val(), d.y.Val(), p);
      }
    }
  }

  lemma SumCanonical(x1: Gauss, y1: Gauss, x2: Gauss, y2: Gauss, infinity: bool, x3: Gauss, y3: Gauss, p: Pos)
    requires Field(p) && FiniteSum(x1, y1, x2, y2, infinity, x3, y3, p)
    requires Canonical(x1, p) && Canonical(y1, p) && Canonical(x2, p)
    ensures Canonical(x3, p) && Canonical(y3, p)
  {
    hide Tangent, Chord, ThirdPoint, CongG, Add, Sub;
  }

  // The strings carry multiples of a point of order q, every weight is one that
  // point_mul gets right, and the abscissas differ.
  ghost predicate KeyParts(kshare: seq<Bytes>, xs: seq<int>, ys: seq<nat>, D: Pt, q: Pos, p: Pos) {
    && Prime(q) && p % 4 == 3 && Ordered(D, q, p) && |xs| == |ys| && CarryPoints(kshare, ys, D, p) && Nodes(xs, q)
    && (forall k :: 0 <= k < |xs| ==> Multiplier(Weights(xs, q)[k], q)) && Summable(Weights(xs, q), ys, q)
  }

  // Refuses exactly the lists in which an index is repeated, whatever the
  // strings are.  Otherwise interpolates at zero with the sums of point_add.
  method Combine(params: Params, kshare: seq<Bytes>, p: Pos, ghost ys: seq<nat>, ghost D: Pt)
    returns (ok: bool, key: Bytes)
    requires params.q > 0 && 0 < params.sharet <= |kshare| && Field(p)
    requires var index := IndicesOf(kshare, params.sharet); NoRepeats(index) ==> InRange(index, |params.robustx|)
    ensures ok <==> NoRepeats(IndicesOf(kshare, params.sharet))
    ensures ok ==> var xs := Selected(params.robustx, IndicesOf(kshare, params.sharet));
                   KeyParts(kshare, xs, ys, D, params.q, p) ==>
                     var T := Times(CodeDot(Weights(xs, params.q), ys, params.q), D, p);
                     Plain(T) && key == PointBytes(CoordsOf(T))
  {
    hide Times, Plus, HasOrder, Associative, Prime, OnCurve, Rem, Cong, CarriesPoint, Weight, Nodes, CodeDot,
         IsPoint, Plain, CoordsOf, Multiplier, IndexOf, KeyParts;
    var q := params.q;
    key := [];
    var indices;
    ok, indices := ReadIndices(kshare, params.sharet);
    if !ok { return; }
    ghost var xs := Selected(params.robustx, indices);
    ghost var ws := Weights(xs, q);
    ghost var good := KeyParts(kshare, xs, ys, D, q, p);
    if good { KeyPartsLength(kshare, xs, ys, D, q, p); }
    var d := new Point();
    SetO(d);
    if good { EmptySum(ws, ys, D, q, p, d); }
    var i := 0;
    while i < params.sharet
      invariant 0 <= i <= params.sharet && d.x != d.y && Canonical(d.x.Val(), p) && Canonical(d.y.Val(), p)
      invariant good ==> |ws| == |ys| && IsPoint(d, Times(CodeDot(ws[..i], ys[..i], q), D, p))
      invariant good && i > 0 ==> !Cong(CodeDot(ws[..i], ys[..i], q), 0, q)
    {
      var z := ShareWeight(params.robustx, indices, i, q);
      if good { KeyPartsWeight(kshare, xs, ys, D, q, p, i); }
      AddShare(d, kshare[i], z, p, good, ys, ws, D, q, i);
      i := i + 1;
    }
    if good {
      assert ws[..i] == ws && ys[..i] == ys;
      FinishKey(d, p, CodeDot(ws, ys, q), D, q);
    }
    key := SetPoint(d);
  }

  lemma KeyPartsLength(kshare: seq<Bytes>, xs: seq<int>, ys: seq<nat>, D: Pt, q: Pos, p: Pos)
    requires KeyParts(kshare, xs, ys, D, q, p)
    ensures |Weights(xs, q)| == |xs| == |ys| && Prime(q) && Nodes(xs, q) && Ordered(D, q, p) && p % 4 == 3
    ensures Summable(Weights(xs, q), ys, q)
  {
    hide Nodes, Summable, Ordered, Prime, Weight, Times;
  }

  lemma KeyPartsWeight(kshare: seq<Bytes>, xs: seq<int>, ys: seq<nat>, D: Pt, q: Pos, p: Pos, i: nat)
    requires KeyParts(kshare, xs, ys, D, q, p) && i < |xs|
    ensures |xs| == |ys| && i < |kshare| && Prime(q) && Nodes(xs, q) && Weights(xs, q)[i] == Weight(xs, i, q)
    ensures Multiplier(Weights(xs, q)[i], q) && CarriesPoint(kshare[i], ys[i], D, p)
  {
    hide Nodes, Summable, Ordered, Prime, Weight, Multiplier, CarriesPoint;
  }

  lemma EmptySum(ws: seq<int>, ys: seq<nat>, D: Pt, q: Pos, p: Pos, d: Point)
    requires |ws| == |ys| && d.infinity
    ensures IsPoint(d, Times(CodeDot(ws[..0], ys[..0], q), D, p))
  {
    TimesOne(D, p);
  }

  // One share: its point, times its weight, added to the sum.
  method AddShare(d: Point, share: Bytes, z: nat, p: Pos, ghost good: bool, ghost ys: seq<nat>, ghost ws: seq<int>,
                  ghost D: Pt, ghost q: Pos, ghost i: nat)
    requires d.x != d.y && Field(p) && Canonical(d.x.Val(), p) && Canonical(d.y.Val(), p)
    requires good ==>
               && Prime(q) && Ordered(D, q, p) && p % 4 == 3 && i < |ys| == |ws| && CarriesPoint(share, ys[i], D, p)
               && Summable(ws, ys, q) && z == ws[i] && Multiplier(z, q)
               && IsPoint(d, Times(CodeDot(ws[..i], ys[..i], q), D, p))
    modifies d, d.x, d.y
    ensures Canonical(d.x.Val(), p) && Canonical(d.y.Val(), p)
    ensures good ==> IsPoint(d, Times(CodeDot(ws[..i + 1], ys[..i + 1], q), D, p))
    ensures good ==> !Cong(CodeDot(ws[..i + 1], ys[..i + 1], q), 0, q)
  {
    hide Times, Plus, HasOrder, Associative, Prime, OnCurve, Rem, Cong, Multiplier, IsPoint, CoordsOf, PointOf, CodeDot,
         Summable, Merged;
    var yP := new Point();
    var bs1, bs2 := Split(share);
    PointFrom(yP, bs2);
    if good { KeyPointUsable(yP, ys[i], D, q, p); }
    AnyMultiple(yP, z, yP, p, q);
    ghost var e, w := 0, 0;
    if good {
      e, w := CodeDot(ws[..i], ys[..i], q), z * ys[i];
      OrderOf(w, D, q, p);
      TimesTimes(z, ys[i], D, p);
      StoredSpecial(yP, Times(w, D, p), p);
      SummableStep(ws, ys, i, q);
      NextSum(ws, ys, i, q);
    }
    AddKeyPart(d, yP, p, good, e, w, D, q);
  }

  lemma KeyPointUsable(yP: Point, y: nat, D: Pt, q: Pos, p: Pos)
    requires Prime(q) && Ordered(D, q, p) && Times(y, D, p).A?
    requires !yP.infinity && Coords(yP.x.Val(), yP.y.Val()) == CoordsOf(Times(y, D, p))
    ensures yP.Meant(p) == Times(y, D, p) && Ordered(yP.Meant(p), q, p)
  {
    hide Times, Associative, Plus, Cong, Prime;
    OrderOf(y, D, q, p);
    TimesOnCurve(y, D, p);
    MultipleHasOrder(y, D, q, p);
  }

  lemma FinishKey(d: Point, p: Pos, e: int, D: Pt, q: Pos)
    requires Ordered(D, q, p) && !Cong(e, 0, q) && IsPoint(d, Times(e, D, p))
    ensures Plain(Times(e, D, p)) && Coords(d.x.Val(), d.y.Val()) == CoordsOf(Times(e, D, p))
  {
    hide Times, HasOrder, Associative, Cong;
    OrderPlain(e, D, q, p);
  }

  // ----- threshold extraction is direct extraction -----

  // Combining shares made from shares of the master gives the key that the
  // master itself gives.
  lemma CombinedIsExtracted(f: seq<nat>, xs: seq<int>, ys: seq<nat>, D: Pt, q: Pos, p: Pos)
    requires Prime(q) && GroupLaw(p) && HasOrder(D, q, p) && Nodes(xs, q) && 0 < |f| <= |xs| == |ys|
    requires forall i :: 0 <= i < |xs| ==> ys[i] == Rem(Eval(f, xs[i]), q)
    ensures Times(Dot(Weights(xs, q), ys), D, p) == Times(f[0], D, p)
  {
    hide Times, Weights, Dot, Eval, Nodes, HasOrder, Associative;
    SharesDetermine(f, xs, ys, q);
    TimesEqual(Dot(Weights(xs, q), ys), f[0], D, q, p);
  }

  // A key share gives back its index and its point.
  lemma KeyShareRecovered(i: int, y: nat, D: Pt, q: Pos, p: Pos)
    requires GroupLaw(p) && HasOrder(D, q, p) && 0 <= i < 256 && Size(p) <= 16000 && Plain(Times(y, D, p))
    ensures IndexOf(KeyShare(i, Times(y, D, p))) == i && CarriesPoint(KeyShare(i, Times(y, D, p)), y, D, p)
  {
    hide Times, HasOrder, Associative, Encode, IntBytes, BytesInt, Halves, PointBytes, PointOf, StorablePoint, Size;
    var T := Times(y, D, p);
    OrderOf(0, D, q, p);
    TimesOnCurve(y, D, p);
    CanonicalStorable(CoordsOf(T), p);
    IntLength(i);
    HalvesOfPair(IntBytes(i), PointBytes(CoordsOf(T)));
    IntRoundTrip(i);
    PointRecovered(CoordsOf(T));
  }

  // The values of the chosen shares.
  function ChosenValues(master: Bytes, coefficients: seq<nat>, xs: seq<int>, q: Pos): (ys: seq<nat>)
    ensures |ys| == |xs|
  {
    seq(|xs|, i requires 0 <= i < |xs| => Rem(Eval([Big(master)] + coefficients, xs[i]), q))
  }

  // Key shares from the chosen master shares.
  method ExtractShares(mshare: seq<Bytes>, choice: seq<nat>, digest: Bytes, c: Curve, ghost r: Pos, ghost ys: seq<nat>)
    returns (kshare: seq<Bytes>)
    requires Usable(c) && Size(c.p) <= 16000 && Size(c.q) < 65536 && |ys| == |choice|
    requires InRange(choice, |mshare|) && InRange(choice, 256)
    requires forall i :: 0 <= i < |ys| ==> ys[i] < c.q && mshare[choice[i]] == Share(choice[i], ys[i])
    ensures |kshare| == |choice| && IndicesOf(kshare, |choice|) == choice
    ensures Identity(digest, c, r) && (forall i :: 0 <= i < |ys| ==> Multiplier(ys[i], c.q)) ==>
              CarryPoints(kshare, ys, PointOfIdentity(digest, c), c.p)
  {
    hide Times, HasOrder, Associative, Prime, Multiplier, PointOfIdentity, IndexOf, ValueOf, Share, KeyShare,
         CarriesPoint, MpzBytes, Plain, Size, Hashed, Identity;
    ghost var D := PointOfIdentity(digest, c);
    ghost var good := Identity(digest, c, r) && forall i :: 0 <= i < |ys| ==> Multiplier(ys[i], c.q);
    if good { IdentityHasOrder(digest, c, r); }
    kshare := [];
    for i := 0 to |choice|
      invariant |kshare| == i
      invariant forall k :: 0 <= k < i ==> IndexOf(kshare[k]) == choice[k]
      invariant good ==> forall k :: 0 <= k < i ==> CarriesPoint(kshare[k], ys[k], D, c.p)
    {
      SizeGrows(ys[i], c.q);
      ShareRecovered(choice[i], ys[i]);
      var share := ExtractShare(mshare[choice[i]], digest, c, r);
      IndexKept(share, choice[i], c.p);
      if good { KeyShareRecovered(choice[i], ys[i], D, c.q, c.p); }
      kshare := kshare + [share];
    }
  }

  // Every key share, good or not, gives back its index.
  lemma IndexKept(share: Bytes, i: int, p: Pos)
    requires 0 <= i < 256 && Size(p) <= 16000 && Indexed(share, i, p)
    ensures IndexOf(share) == i
  {
    hide Encode, IntBytes, BytesInt, Halves, PointBytes, PointOf, StorablePoint, Size;
    var P: Coords :| Canonical(P.x, p) && Canonical(P.y, p) && share == Encode([IntBytes(i), PointBytes(P)]);
    CanonicalStorable(P, p);
    IntLength(i);
    HalvesOfPair(IntBytes(i), PointBytes(P));
    IntRoundTrip(i);
  }

  lemma IdentityHasOrder(digest: Bytes, c: Curve, r: Pos)
    requires Identity(digest, c, r)
    ensures Prime(c.q) && Ordered(PointOfIdentity(digest, c), c.q, c.p)
  {
    hide Associative, Prime, Times, Hashed;
    var P := Hashed(digest, c.p);
    OrderOf(c.p1onq, P, r, c.p);
    OutcomeFinite(c.p1onq, r);
    OrderQ(c.p1onq, P, Times(c.p1onq, P, c.p), r, c.q, c.p);
  }

  // Master, values and weights that point_mul gets right, of an identity that is
  // mapped right.
  ghost predicate Extractable(master: Bytes, ys: seq<nat>, xs: seq<int>, digest: Bytes, c: Curve, r: Pos) {
    && |xs| == |ys| && Identity(digest, c, r) && c.p % 4 == 3 && Multiplier(Big(master), c.q) && Nodes(xs, c.q)
    && (forall i :: 0 <= i < |ys| ==> Multiplier(ys[i], c.q) && Multiplier(Weights(xs, c.q)[i], c.q))
    && Summable(Weights(xs, c.q), ys, c.q)
  }

  // Splitting the master, extracting key shares from any t master shares and
  // combining them is never refused.  The key is the one that the master gives,
  // byte for byte, exactly when the sums of point_add lead to the master.
  method ThresholdExtraction(params: Params, master: Bytes, t: nat, n: nat, coefficients: seq<nat>, abscissas: seq<nat>,
                             choice: seq<nat>, digest: Bytes, c: Curve, ghost r: Pos)
    returns (ok: bool, combined: Bytes, direct: Bytes)
    requires 0 < t <= n <= 256 && |coefficients| == t - 1 && |abscissas| == n && params.q == c.q
    requires Usable(c) && Size(c.p) <= 16000 && Size(c.q) < 65536
    requires |choice| == t && InRange(choice, n)
    requires forall i, j :: 0 <= i < j < t ==> choice[i] != choice[j]
    modifies params`robustx, params`sharet, params`sharen
    ensures ok
    ensures var xs := Selected(abscissas, choice);
            var ys := ChosenValues(master, coefficients, xs, c.q);
            Extractable(master, ys, xs, digest, c, r) ==>
              (combined == direct <==> Cong(CodeDot(Weights(xs, c.q), ys, c.q), Big(master), c.q))
  {
    hide Times, HasOrder, Multiplier, PointOfIdentity, IndexOf, ValueOf, Share, CarryPoints, Size, Summable,
         Weights, CodeDot, Nodes, Eval, Plain, CoordsOf, PointBytes, Rem, Prime, Associative, Identity, Extractable,
         KeyParts, Cong;
    ghost var q := c.q;
    ghost var xs := Selected(abscissas, choice);
    ghost var ys := ChosenValues(master, coefficients, xs, q);
    ghost var D := PointOfIdentity(digest, c);
    var mshare, y := SplitShares(params, master, t, n, coefficients, abscissas);
    ChosenAre(mshare, y, master, coefficients, abscissas, choice, q);
    var kshare := ExtractShares(mshare, choice, digest, c, r, ys);
    ok, combined := Combine(params, kshare, c.p, ys, D);
    direct := Extract(master, digest, c, r);
    if Extractable(master, ys, xs, digest, c, r) {
      ExtractableParts(kshare, master, ys, xs, digest, c, r);
      SameKey(CodeDot(Weights(xs, q), ys, q), Big(master), D, q, c.p);
    }
  }

  lemma ExtractableParts(kshare: seq<Bytes>, master: Bytes, ys: seq<nat>, xs: seq<int>, digest: Bytes, c: Curve, r: Pos)
    requires Extractable(master, ys, xs, digest, c, r)
    requires Identity(digest, c, r) && (forall i :: 0 <= i < |ys| ==> Multiplier(ys[i], c.q)) ==>
               CarryPoints(kshare, ys, PointOfIdentity(digest, c), c.p)
    ensures |xs| == |ys| && KeyParts(kshare, xs, ys, PointOfIdentity(digest, c), c.q, c.p)
    ensures Identity(digest, c, r) && Multiplier(Big(master), c.q)
    ensures Ordered(PointOfIdentity(digest, c), c.q, c.p)
  {
    hide Identity, Multiplier, Nodes, Summable, CarryPoints, Ordered, Prime, PointOfIdentity;
    IdentityHasOrder(digest, c, r);
  }

  // Two multiples have the same encoding exactly when the multipliers agree
  // modulo the order.
  lemma SameKey(e: int, n: int, D: Pt, q: Pos, p: Pos)
    requires Ordered(D, q, p) && Size(p) <= 16000 && Plain(Times(e, D, p)) && Plain(Times(n, D, p))
    ensures PointBytes(CoordsOf(Times(e, D, p))) == PointBytes(CoordsOf(Times(n, D, p))) <==> Cong(e, n, q)
  {
    hide Times, HasOrder, Associative, PointBytes, StorablePoint, Size, Cong;
    OrderOf(0, D, q, p);
    TimesOnCurve(e, D, p); TimesOnCurve(n, D, p);
    TimesEqual(e, n, D, q, p);
    CanonicalStorable(CoordsOf(Times(e, D, p)), p);
    CanonicalStorable(CoordsOf(Times(n, D, p)), p);
    if PointBytes(CoordsOf(Times(e, D, p))) == PointBytes(CoordsOf(Times(n, D, p))) {
      PointRoundTrip(CoordsOf(Times(e, D, p)), CoordsOf(Times(n, D, p)));
    }
  }

  // As long as no partial sum is O they do.
  lemma SumsReachMaster(master: Bytes, coefficients: seq<nat>, xs: seq<int>, q: Pos)
    requires Prime(q) && Nodes(xs, q) && |coefficients| < |xs|
    requires NoPartialO(Weights(xs, q), ChosenValues(master, coefficients, xs, q), q)
    ensures Cong(CodeDot(Weights(xs, q), ChosenValues(master, coefficients, xs, q), q), Big(master), q)
  {
    hide Weights, Eval, Nodes, Rem, Prime, NoPartialO;
    var f: seq<int> := [Big(master)] + coefficients;
    var ys := ChosenValues(master, coefficients, xs, q);
    CodeDotIsDot(Weights(xs, q), ys, q);
    SharesDetermine(f, xs, ys, q);
  }

  lemma ChosenAre(mshare: seq<Bytes>, y: seq<nat>, master: Bytes, coefficients: seq<nat>, abscissas: seq<nat>,
                  choice: seq<nat>, q: Pos)
    requires |mshare| == |y| == |abscissas| && InRange(choice, |abscissas|)
    requires forall i :: 0 <= i < |y| ==> y[i] == Rem(Eval([Big(master)] + coefficients, abscissas[i]), q)
    requires forall i :: 0 <= i < |y| ==> mshare[i] == Share(i, y[i])
    ensures var ys := ChosenValues(master, coefficients, Selected(abscissas, choice), q);
            forall i :: 0 <= i < |choice| ==> ys[i] < q && mshare[choice[i]] == Share(choice[i], ys[i])
  {
    hide Share, Eval;
  }
}
