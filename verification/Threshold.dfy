// IBE_split_master and IBE_construct_master: sharing of the master key.
module Threshold {
  import opened NumberTheory
  import opened EllipticCurve
  import opened Projective
  import opened Shamir
  import opened ByteStrings
  import opened Serial
  import opened Parameters

  // The i-th master share: the index and the value, packed.
  function Share(i: int, y: nat): Bytes { Encode([IntBytes(i), MpzBytes(y)]) }

  // Horner's rule modulo q.
  method Horner(poly: seq<int>, x: int, q: Pos) returns (z: int)
    requires poly != []
    ensures z == Rem(Eval(poly, x), q)
  {
    z := 0;
    var j := |poly| - 1;
    while j >= 0
      invariant -1 <= j < |poly|
      invariant Cong(z, Eval(poly[j + 1..], x), q) && (j < |poly| - 1 ==> 0 <= z < q)
    {
      HornerStep(poly, x, j, z, q);
      z := z * x;
      z := z + poly[j];
      z := Rem(z, q);
      j := j - 1;
    }
    assert poly[0..] == poly;
    ModIntro(z, 0, z, q);
  }

  lemma HornerStep(poly: seq<int>, x: int, j: nat, z: int, q: Pos)
    requires j < |poly| && Cong(z, Eval(poly[j + 1..], x), q)
    ensures Cong(Rem(z * x + poly[j], q), Eval(poly[j..], x), q)
  {
    CongMod(z * x + poly[j], q);
    assert poly[j..][1..] == poly[j + 1..];
    hide Rem;
    CongMul(z, Eval(poly[j + 1..], x), x, x, q);
    CongAdd(z * x, Eval(poly[j + 1..], x) * x, poly[j], poly[j], q);
  }

  // The master shares and their values; the random coefficients and abscissas
  // are parameters.
  method SplitShares(params: Params, master: Bytes, t: nat, n: nat, coefficients: seq<nat>, abscissas: seq<nat>)
    returns (mshare: seq<Bytes>, y: seq<nat>)
    requires t > 0 && |coefficients| == t - 1 && |abscissas| == n && params.q > 0
    modifies params`robustx, params`sharet, params`sharen
    ensures params.robustx == abscissas && params.sharet == t && params.sharen == n
    ensures |mshare| == |y| == n
    ensures forall i :: 0 <= i < n ==> y[i] == Rem(Eval([Big(master)] + coefficients, abscissas[i]), params.q)
    ensures forall i :: 0 <= i < n ==> mshare[i] == Share(i, y[i]) == Encode([IntBytes(i), MpzBytes(y[i])])
  {
    hide Rem, Eval;
    var r := InpRaw(master);
    var poly: seq<int> := [r] + coefficients;
    params.sharet := t;
    params.sharen := n;
    params.robustx := abscissas;
    mshare, y := [], [];
    for i := 0 to n
      invariant |mshare| == |y| == i
      invariant params.robustx == abscissas && params.sharet == t && params.sharen == n
      invariant forall k :: 0 <= k < i ==> y[k] == Rem(Eval(poly, abscissas[k]), params.q)
      invariant forall k :: 0 <= k < i ==> mshare[k] == Share(k, y[k])
    {
      var z := Horner(poly, abscissas[i], params.q);
      var bs1 := SetInt(i);
      var bs2 := SetMpz(z);
      var bs := Join(bs1, bs2);
      mshare, y := mshare + [bs], y + [z];
    }
  }

  // ----- the weights -----

  // The factors met before position m, leaving out the i-th.
  function Met(xs: seq<int>, i: nat, m: nat): seq<int>
    requires i < |xs| && m <= |xs|
  {
    if m <= i then xs[..m] else xs[..i] + xs[i + 1..m]
  }

  lemma MetStep(xs: seq<int>, i: nat, m: nat, num: int, denom: int, q: Pos)
    requires i < |xs| && m < |xs| && m != i
    requires Cong(num, Prod(Met(xs, i, m)), q) && Cong(denom, Prod(Minus(Met(xs, i, m), xs[i])), q)
    ensures Cong(Rem(num * xs[m], q), Prod(Met(xs, i, m + 1)), q)
    ensures Cong(Rem(denom * (xs[m] - xs[i]), q), Prod(Minus(Met(xs, i, m + 1), xs[i])), q)
  {
    hide Prod;
    var s, s' := Met(xs, i, m), Met(xs, i, m + 1);
    assert s' == s + [xs[m]];
    assert Minus(s', xs[i]) == Minus(s, xs[i]) + [xs[m] - xs[i]];
    OneFactor(s, xs[m], num, q);
    OneFactor(Minus(s, xs[i]), xs[m] - xs[i], denom, q);
  }

  lemma OneFactor(s: seq<int>, a: int, num: int, q: Pos)
    requires Cong(num, Prod(s), q)
    ensures Cong(Rem(num * a, q), Prod(s + [a]), q)
  {
    CongMod(num * a, q);
    assert (s + [a])[..|s|] == s;
    hide Rem;
    CongMul(num, Prod(s), a, a, q);
  }

  predicate InRange(index: seq<int>, n: nat) { forall k :: 0 <= k < |index| ==> 0 <= index[k] < n }

  function Selected(xs: seq<int>, index: seq<int>): (s: seq<int>)
    requires InRange(index, |xs|)
    ensures |s| == |index|
  {
    seq(|index|, k requires 0 <= k < |index| => xs[index[k]])
  }

  // The weight of the i-th chosen share.
  method ShareWeight(robustx: seq<int>, index: seq<int>, i: nat, q: Pos) returns (z: int)
    requires i < |index| && InRange(index, |robustx|)
    ensures 0 <= z < q
    ensures Prime(q) && Nodes(Selected(robustx, index), q) ==> z == Weight(Selected(robustx, index), i, q)
  {
    hide Rem, Prod, Minus, Prime, Nodes, Numerator, Denominator, Weight;
    ghost var xs := Selected(robustx, index);
    var num, denom := 1, 1;
    EmptyProd(xs, i);
    for j := 0 to |index|
      invariant Cong(num, Prod(Met(xs, i, j)), q) && Cong(denom, Prod(Minus(Met(xs, i, j), xs[i])), q)
    {
      if j != i {
        MetStep(xs, i, j, num, denom, q);
        num := num * robustx[index[j]];
        num := Rem(num, q);
        z := robustx[index[j]] - robustx[index[i]];
        denom := denom * z;
        denom := Rem(denom, q);
      } else {
        assert Met(xs, i, j + 1) == Met(xs, i, j);
      }
    }
    AllMet(xs, i);
    var ok, inv := MpzInvert(denom, q);
    z := num * inv;
    z := Rem(z, q);
    if Prime(q) && Nodes(xs, q) { WeightComputed(xs, i, num, denom, ok, inv, q); }
  }

  lemma AllMet(xs: seq<int>, i: nat)
    requires i < |xs|
    ensures Prod(Met(xs, i, |xs|)) == Numerator(xs, i) && Prod(Minus(Met(xs, i, |xs|), xs[i])) == Denominator(xs, i)
  {
    assert Met(xs, i, |xs|) == Without(xs, i);
  }

  lemma EmptyProd(xs: seq<int>, i: nat)
    requires i < |xs|
    ensures Prod(Met(xs, i, 0)) == 1 && Prod(Minus(Met(xs, i, 0), xs[i])) == 1
  {
    assert Met(xs, i, 0) == [] && Minus([], xs[i]) == [];
  }

  lemma WeightComputed(xs: seq<int>, i: nat, num: int, denom: int, ok: bool, inv: int, q: Pos)
    requires Prime(q) && Nodes(xs, q) && i < |xs|
    requires Cong(num, Numerator(xs, i), q) && Cong(denom, Denominator(xs, i), q)
    requires (ok <==> Invertible(denom, q)) && (ok ==> IsInverse(denom, inv, q))
    ensures Rem(num * inv, q) == Weight(xs, i, q)
  {
    DenominatorNonZero(xs, i, q);
    PrimeInvertible(denom, q);
    InvIsInverse(denom, inv, q);
    SameInverse(denom, Denominator(xs, i), q);
    CongMul(num, Numerator(xs, i), inv, inv, q);
  }

  lemma SameInverse(a: int, b: int, q: Pos)
    requires Cong(a, b, q)
    ensures Inv(a, q) == Inv(b, q)
  {
  }

  // ----- reconstruction -----

  // What the C code reads out of a share, whatever string it is.
  ghost function IndexOf(share: Bytes): int { BytesInt(Halves(share).0) }

  ghost function ValueOf(share: Bytes): nat { Big(Halves(share).1) }

  ghost function IndicesOf(shares: seq<Bytes>, t: nat): (index: seq<int>)
    requires t <= |shares|
    ensures |index| == t
  {
    seq(t, i requires 0 <= i < t => IndexOf(shares[i]))
  }

  ghost function ValuesOf(shares: seq<Bytes>, t: nat): (ys: seq<int>)
    requires t <= |shares|
    ensures |ys| == t
  {
    seq(t, i requires 0 <= i < t => ValueOf(shares[i]))
  }

  // A share gives back the index and the value packed in it.
  lemma ShareRecovered(i: int, y: nat)
    requires 0 <= i < 256 && |MpzBytes(y)| < 65536
    ensures IndexOf(Share(i, y)) == i && ValueOf(Share(i, y)) == y
  {
    hide Encode, MpzBytes, IntBytes, BytesInt, Halves, Big;
    IntLength(i);
    HalvesOfPair(IntBytes(i), MpzBytes(y));
    IntRoundTrip(i);
    MpzRoundTrip(y);
  }

  lemma IntLength(n: int)
    ensures |IntBytes(n)| == 4
  {
  }

  method ReadShare(share: Bytes) returns (i: int, y: nat)
    ensures i == IndexOf(share) == BytesInt(Halves(share).0) && y == ValueOf(share) == Big(Halves(share).1)
  {
    var bs1, bs2 := Split(share);
    i := IntFrom(bs1);
    y := InpRaw(bs2);
  }

  // The chosen shares interpolated at zero, with the sum kept below q.
  method ConstructMaster(params: Params, mshare: seq<Bytes>) returns (master: Bytes)
    requires params.q > 0 && 0 <= params.sharet <= |mshare|
    requires InRange(IndicesOf(mshare, params.sharet), |params.robustx|)
    ensures var xs := Selected(params.robustx, IndicesOf(mshare, params.sharet));
            Prime(params.q) && Nodes(xs, params.q) ==>
              master == MpzBytes(Rem(Dot(Weights(xs, params.q), ValuesOf(mshare, params.sharet)), params.q))
    ensures exists x: nat :: x < params.q && master == MpzBytes(x)
  {
    hide Rem, Nodes, Weight, Dot, Prime, IndexOf, ValueOf;
    var t, q := params.sharet, params.q;
    ghost var xs := Selected(params.robustx, IndicesOf(mshare, t));
    ghost var ys := ValuesOf(mshare, t);
    ghost var good := Prime(q) && Nodes(xs, q);
    var indices, values := ReadShares(mshare, t);
    var x := 0;
    DotEmpty(Weights(xs, q), ys, q);
    for i := 0 to t
      invariant 0 <= x < q && (good ==> x == Rem(Dot(Weights(xs, q)[..i], ys[..i]), q))
    {
      var z := ShareWeight(params.robustx, indices, i, q);
      z := z * values[i];
      z := Rem(z, q);
      if good { AddTerm(Weights(xs, q), ys, i, x, z, q); }
      x := x + z;
      if x >= q {
        x := x - q;
      }
    }
    assert Weights(xs, q)[..t] == Weights(xs, q) && ys[..t] == ys;
    master := SetMpz(x);
  }

  method ReadShares(mshare: seq<Bytes>, t: nat) returns (indices: seq<int>, values: seq<nat>)
    requires t <= |mshare|
    ensures indices == IndicesOf(mshare, t) && values == ValuesOf(mshare, t)
  {
    hide IndexOf, ValueOf;
    indices, values := [], [];
    for i := 0 to t
      invariant indices == IndicesOf(mshare, i) && values == ValuesOf(mshare, i)
    {
      var k, v := ReadShare(mshare[i]);
      indices, values := indices + [k], values + [v];
    }
  }

  lemma DotEmpty(u: seq<int>, v: seq<int>, q: Pos)
    requires |u| == |v|
    ensures Rem(Dot(u[..0], v[..0]), q) == 0
  {
    assert u[..0] == [] && v[..0] == [];
    ModIntro(0, 0, 0, q);
  }

  // Adding a residue and subtracting q once is addition modulo q.
  lemma AddTerm(u: seq<int>, v: seq<int>, i: nat, x: int, z: int, q: Pos)
    requires i < |u| == |v| && x == Rem(Dot(u[..i], v[..i]), q) && z == Rem(u[i] * v[i], q)
    ensures (if x + z >= q then x + z - q else x + z) == Rem(Dot(u[..i + 1], v[..i + 1]), q)
  {
    assert u[..i + 1][..i] == u[..i] && v[..i + 1][..i] == v[..i];
    var d, e := Dot(u[..i], v[..i]), u[i] * v[i];
    assert Dot(u[..i + 1], v[..i + 1]) == d + e;
    AddResidues(d, e, q);
  }

  lemma AddResidues(d: int, e: int, q: Pos)
    ensures var s := Rem(d, q) + Rem(e, q); (if s >= q then s - q else s) == Rem(d + e, q)
  {
    CongMod(d, q); CongMod(e, q);
    CongAdd(Rem(d, q), d, Rem(e, q), e, q);
    var s := Rem(d, q) + Rem(e, q);
    if s >= q {
      CongIntro(s - q, s, -1, q);
      ModIntro(s - q, 0, s - q, q);
    } else {
      ModIntro(s, 0, s, q);
    }
  }

  // ----- the round trip -----

  lemma {:induction false} DotCong(u: seq<int>, v: seq<int>, w: seq<int>, q: Pos)
    requires |u| == |v| == |w| && forall i :: 0 <= i < |v| ==> Cong(v[i], w[i], q)
    ensures Cong(Dot(u, v), Dot(u, w), q)
  {
    if u != [] {
      var n := |u| - 1;
      DotCong(u[..n], v[..n], w[..n], q);
      CongMul(u[n], u[n], v[n], w[n], q);
      CongAdd(Dot(u[..n], v[..n]), Dot(u[..n], w[..n]), u[n] * v[n], u[n] * w[n], q);
    }
  }

  // Any t shares of a polynomial of degree below t give its constant term.
  lemma SharesDetermine(f: seq<int>, xs: seq<int>, ys: seq<int>, q: Pos)
    requires Prime(q) && Nodes(xs, q) && 0 < |f| <= |xs| == |ys|
    requires forall i :: 0 <= i < |xs| ==> ys[i] == Rem(Eval(f, xs[i]), q)
    ensures Rem(Dot(Weights(xs, q), ys), q) == Rem(f[0], q)
  {
    hide Weight, Weights, Dot, Eval;
    forall i | 0 <= i < |xs| ensures Cong(ys[i], Values(f, xs)[i], q) { CongMod(Eval(f, xs[i]), q); }
    DotCong(Weights(xs, q), ys, Values(f, xs), q);
    Interpolation(xs, f, q);
  }

  // Splitting and then reconstructing from the shares that choice selects.
  method SplitThenConstruct(params: Params, master: Bytes, t: nat, n: nat, coefficients: seq<nat>, abscissas: seq<nat>,
                            choice: seq<nat>)
    returns (recovered: Bytes)
    requires 0 < t <= n <= 256 && |coefficients| == t - 1 && |abscissas| == n
    requires params.q > 0 && Prime(params.q) && Nodes(abscissas, params.q) && Size(params.q) < 65536
    requires |choice| == t && InRange(choice, n)
    requires forall i, j :: 0 <= i < j < t ==> choice[i] != choice[j]
    modifies params`robustx, params`sharet, params`sharen
    ensures recovered == MpzBytes(Rem(Big(master), params.q))
  {
    hide Rem, Share, Weight, Weights, Dot, Eval, Prime, Cong, MpzBytes, IndexOf, ValueOf, Nodes;
    var mshare, _ := SplitShares(params, master, t, n, coefficients, abscissas);
    var chosen := seq(t, i requires 0 <= i < t => mshare[choice[i]]);
    ghost var f: seq<int> := [Big(master)] + coefficients;
    ghost var xs := Selected(abscissas, choice);
    ghost var q := params.q;
    ghost var ys: seq<nat> := seq(t, i requires 0 <= i < t => Rem(Eval(f, xs[i]), q));
    ChosenNodes(abscissas, choice, q);
    forall i | 0 <= i < t ensures IndexOf(chosen[i]) == choice[i] && ValueOf(chosen[i]) == ys[i] {
      SizeGrows(ys[i], q);
      ShareRecovered(choice[i], ys[i]);
    }
    assert IndicesOf(chosen, t) == choice && ValuesOf(chosen, t) == ys;
    recovered := ConstructMaster(params, chosen);
    SharesDetermine(f, xs, ys, q);
  }

  lemma ChosenNodes(xs: seq<int>, choice: seq<nat>, q: Pos)
    requires Nodes(xs, q) && InRange(choice, |xs|)
    requires forall i, j :: 0 <= i < j < |choice| ==> choice[i] != choice[j]
    ensures Nodes(Selected(xs, choice), q)
  {
    hide Cong;
    forall i, j | 0 <= i < j < |choice| ensures !Cong(xs[choice[i]], xs[choice[j]], q) {
      var a, b := choice[i], choice[j];
      CongSymmetric(xs[a], xs[b], q);
      if a < b { assert !Cong(xs[a], xs[b], q); } else { assert !Cong(xs[b], xs[a], q); }
    }
  }

  // A master key in its own encoding comes back unchanged.
  lemma MasterUnchanged(x: nat, q: Pos)
    requires x < q
    ensures MpzBytes(Rem(Big(MpzBytes(x)), q)) == MpzBytes(x)
  {
    MpzRoundTrip(x);
    ModIntro(x, 0, x, q);
  }
}
