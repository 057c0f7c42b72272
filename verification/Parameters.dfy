// IBE_serialize_params and IBE_deserialize_params: the stored part of the
// system parameters.
module Parameters {
  import opened Curves
  import opened ByteStrings
  import opened Serial

  datatype ParamData = ParamData(version: Bytes, id: Bytes, p: nat, q: nat, P: Coords, Ppub: Coords,
                                 sharet: int, sharen: int, robustx: seq<nat>, robustP: seq<Coords>)

  predicate Shaped(d: ParamData) {
    && NonNegative(d.P.x) && NonNegative(d.P.y) && NonNegative(d.Ppub.x) && NonNegative(d.Ppub.y)
    && |d.robustx| == |d.robustP| == d.sharen
    && forall j :: 0 <= j < |d.robustP| ==> NonNegative(d.robustP[j].x) && NonNegative(d.robustP[j].y)
  }

  // What fits the format: counters of one byte, strings of two-byte length.
  ghost predicate Storing(d: ParamData) {
    && Shaped(d) && 0 <= d.sharet < 256 && d.sharen < 256
    && StorablePoint(d.P) && StorablePoint(d.Ppub)
    && (forall j :: 0 <= j < |d.robustP| ==> StorablePoint(d.robustP[j]))
    && Fits(Fields(d))
  }

  function ShareFields(xs: seq<nat>, Ps: seq<Coords>): (s: seq<Bytes>)
    requires |xs| == |Ps| && forall j :: 0 <= j < |Ps| ==> NonNegative(Ps[j].x) && NonNegative(Ps[j].y)
    ensures |s| == 2 * |xs|
  {
    if xs == [] then []
    else ShareFields(xs[..|xs| - 1], Ps[..|xs| - 1]) + [MpzBytes(xs[|xs| - 1]), PointBytes(Ps[|xs| - 1])]
  }

  lemma ShareFieldsNext(xs: seq<nat>, Ps: seq<Coords>, j: nat)
    requires j < |xs| == |Ps| && forall k :: 0 <= k < |Ps| ==> NonNegative(Ps[k].x) && NonNegative(Ps[k].y)
    ensures ShareFields(xs[..j + 1], Ps[..j + 1])
         == ShareFields(xs[..j], Ps[..j]) + [MpzBytes(xs[j]), PointBytes(Ps[j])]
  {
    assert xs[..j + 1][..j] == xs[..j] && Ps[..j + 1][..j] == Ps[..j];
  }

  lemma NoShares(xs: seq<nat>, Ps: seq<Coords>)
    requires |xs| == |Ps|
    ensures ShareFields(xs[..0], Ps[..0]) == []
  {
  }

  function HeadFields(d: ParamData): (s: seq<Bytes>)
    requires Shaped(d)
    ensures |s| == 8
  {
    [d.version, d.id, MpzBytes(d.p), MpzBytes(d.q), PointBytes(d.P), PointBytes(d.Ppub),
     IntBytes(d.sharet), IntBytes(d.sharen)]
  }

  function Fields(d: ParamData): seq<Bytes>
    requires Shaped(d)
  {
    HeadFields(d) + ShareFields(d.robustx, d.robustP)
  }

  class Params {
    var version: Bytes
    var id: Bytes
    var p: nat
    var q: nat
    const P: Point
    const Ppub: Point
    var sharet: int
    var sharen: int
    var robustx: seq<nat>
    var robustP: seq<Coords>

    function Data(): ParamData
      reads this, P.x, P.y, Ppub.x, Ppub.y
    {
      ParamData(version, id, p, q, Coords(P.x.Val(), P.y.Val()), Coords(Ppub.x.Val(), Ppub.y.Val()),
                sharet, sharen, robustx, robustP)
    }

    constructor ()
      ensures fresh(P.x) && fresh(P.y) && fresh(Ppub.x) && fresh(Ppub.y)
      ensures P.x != P.y && Ppub.x != Ppub.y && {P.x, P.y} !! {Ppub.x, Ppub.y}
    {
      version, id, p, q := [], [], 0, 0;
      var a := new Point();
      var b := new Point();
      P := a;
      Ppub := b;
      sharet, sharen, robustx, robustP := 0, 0, [], [];
    }

    method Serialize() returns (bs: Bytes)
      requires Shaped(Data())
      ensures bs == Encode(Fields(Data()))
      ensures bs == Encode([version, id, MpzBytes(p), MpzBytes(q), PointBytes(Data().P), PointBytes(Data().Ppub),
                            IntBytes(sharet), IntBytes(sharen)] + ShareFields(robustx, robustP))
    {
      hide Encode, PointBytes, MpzBytes, IntBytes, ShareFields;
      ghost var d := Data();
      NoShares(robustx, robustP);
      var bs2 := SetMpz(p);
      var bs3 := SetMpz(q);
      var bs4 := SetPoint(P);
      var bs5 := SetPoint(Ppub);
      var bs6 := SetInt(sharet);
      var bs7 := SetInt(sharen);
      var bsa := [version, id, bs2, bs3, bs4, bs5, bs6, bs7];
      var j := 0;
      while j < sharen
        invariant 0 <= j <= sharen
        invariant bsa == HeadFields(d) + ShareFields(robustx[..j], robustP[..j])
      {
        ShareFieldsNext(robustx, robustP, j);
        var bx := SetMpz(robustx[j]);
        var bP := CoordsBytes(robustP[j]);
        bsa := bsa + [bx, bP];
        j := j + 1;
      }
      assert robustx[..sharen] == robustx && robustP[..sharen] == robustP;
      bs := EncodeArray(bsa);
    }

    // Reads every field of an array that is long enough; the C code reads beyond
    // a shorter one.  The infinity flags are not part of the format.
    method Deserialize(bs: Bytes, ghost a: seq<Bytes>)
      requires P.x != P.y && Ppub.x != Ppub.y && {P.x, P.y} !! {Ppub.x, Ppub.y}
      requires Fits(a) && bs == Encode(a) && LongEnough(a)
      modifies this, P.x, P.y, Ppub.x, Ppub.y
      ensures Data() == Stored(a)
      ensures version == a[0] && id == a[1] && p == Big(a[2]) && q == Big(a[3])
      ensures Data().P == PointOf(a[4]) && Data().Ppub == PointOf(a[5])
      ensures sharet == BytesInt(a[6]) && sharen == BytesInt(a[7])
      ensures |robustx| == |robustP| == (if sharen < 0 then 0 else sharen) && |a| >= 8 + 2 * |robustx|
      ensures forall j :: 0 <= j < |robustx| ==>
                robustx[j] == Big(a[8 + 2 * j]) && robustP[j] == PointOf(a[9 + 2 * j])
    {
      hide Encode, Fits, BytesInt, Big, PointOf, StoredX, StoredP;
      var r := DecodeArray(bs);
      var bsa := r.value;
      EncodeInjective(bsa, a);
      ReadHead(bsa);
      ReadShares(bsa);
    }

    // The eight leading fields.
    method ReadHead(bsa: seq<Bytes>)
      requires P.x != P.y && Ppub.x != Ppub.y && {P.x, P.y} !! {Ppub.x, Ppub.y} && |bsa| >= 8
      modifies this, P.x, P.y, Ppub.x, Ppub.y
      ensures version == bsa[0] && id == bsa[1] && p == Big(bsa[2]) && q == Big(bsa[3])
      ensures Coords(P.x.Val(), P.y.Val()) == PointOf(bsa[4]) && Coords(Ppub.x.Val(), Ppub.y.Val()) == PointOf(bsa[5])
      ensures sharet == BytesInt(bsa[6]) && sharen == BytesInt(bsa[7])
    {
      hide BytesInt, Big, PointOf, Fp2Of, Halves;
      version := bsa[0];
      id := bsa[1];
      p := InpRaw(bsa[2]);
      q := InpRaw(bsa[3]);
      ReadPoints(bsa[4], bsa[5]);
      sharet := IntFrom(bsa[6]);
      sharen := IntFrom(bsa[7]);
    }

    method ReadPoints(u: Bytes, v: Bytes)
      requires P.x != P.y && Ppub.x != Ppub.y && {P.x, P.y} !! {Ppub.x, Ppub.y}
      modifies P.x, P.y, Ppub.x, Ppub.y
      ensures Coords(P.x.Val(), P.y.Val()) == PointOf(u) && Coords(Ppub.x.Val(), Ppub.y.Val()) == PointOf(v)
    {
      hide PointOf, Fp2Of, Halves;
      PointFrom(P, u);
      PointFrom(Ppub, v);
    }

    // The pairs that follow the eight leading fields.
    method ReadShares(bsa: seq<Bytes>)
      requires LongEnough(bsa) && sharen == BytesInt(bsa[7])
      modifies this`robustx, this`robustP
      ensures robustx == StoredX(bsa, Count(bsa)) && robustP == StoredP(bsa, Count(bsa))
      ensures |robustx| == |robustP| == (if sharen < 0 then 0 else sharen) && |bsa| >= 8 + 2 * |robustx|
      ensures forall j :: 0 <= j < |robustx| ==>
                robustx[j] == Big(bsa[8 + 2 * j]) && robustP[j] == PointOf(bsa[9 + 2 * j])
    {
      hide Big, PointOf, BytesInt;
      robustx, robustP := [], [];
      var j := 0;
      while j < sharen
        invariant 0 <= j <= Count(bsa) && sharen == BytesInt(bsa[7])
        invariant robustx == StoredX(bsa, j) && robustP == StoredP(bsa, j)
      {
        var x := InpRaw(bsa[8 + 2 * j]);
        var c := CoordsFrom(bsa[9 + 2 * j]);
        robustx, robustP := robustx + [x], robustP + [c];
        j := j + 1;
      }
    }
  }

  // The array holds the leading fields and as many pairs as it announces.
  predicate LongEnough(a: seq<Bytes>) { |a| >= 8 && |a| >= 8 + 2 * Count(a) }

  function Count(a: seq<Bytes>): nat
    requires |a| >= 8
  {
    if BytesInt(a[7]) < 0 then 0 else BytesInt(a[7])
  }

  ghost function StoredX(a: seq<Bytes>, n: nat): seq<nat>
    requires |a| >= 8 + 2 * n
  {
    seq(n, j requires 0 <= j < n => Big(a[8 + 2 * j]))
  }

  ghost function StoredP(a: seq<Bytes>, n: nat): seq<Coords>
    requires |a| >= 8 + 2 * n
  {
    seq(n, j requires 0 <= j < n => PointOf(a[9 + 2 * j]))
  }

  // The parameters that an array of strings stands for.
  ghost function Stored(a: seq<Bytes>): ParamData
    requires LongEnough(a)
  {
    ParamData(a[0], a[1], Big(a[2]), Big(a[3]), PointOf(a[4]), PointOf(a[5]), BytesInt(a[6]), BytesInt(a[7]),
              StoredX(a, Count(a)), StoredP(a, Count(a)))
  }

  method CoordsBytes(c: Coords) returns (bs: Bytes)
    requires NonNegative(c.x) && NonNegative(c.y)
    ensures bs == PointBytes(c)
  {
    var P := new Point();
    P.x.a, P.x.b, P.y.a, P.y.b := c.x.a, c.x.b, c.y.a, c.y.b;
    bs := SetPoint(P);
  }

  method CoordsFrom(bs: Bytes) returns (c: Coords)
    ensures c == PointOf(bs)
  {
    var P := new Point();
    PointFrom(P, bs);
    c := Coords(P.x.Val(), P.y.Val());
  }

  lemma HeadTail(d: ParamData, bsa: seq<Bytes>)
    requires Shaped(d) && bsa == Fields(d)
    ensures |bsa| == 8 + 2 * d.sharen
    ensures bsa[0] == d.version && bsa[1] == d.id && bsa[2] == MpzBytes(d.p) && bsa[3] == MpzBytes(d.q)
    ensures bsa[4] == PointBytes(d.P) && bsa[5] == PointBytes(d.Ppub)
    ensures bsa[6] == IntBytes(d.sharet) && bsa[7] == IntBytes(d.sharen)
  {
  }

  lemma {:induction false} ShareAt(xs: seq<nat>, Ps: seq<Coords>, j: nat)
    requires |xs| == |Ps| && j < |xs|
    requires forall j :: 0 <= j < |Ps| ==> NonNegative(Ps[j].x) && NonNegative(Ps[j].y)
    ensures ShareFields(xs, Ps)[2 * j] == MpzBytes(xs[j]) && ShareFields(xs, Ps)[2 * j + 1] == PointBytes(Ps[j])
  {
    if j < |xs| - 1 { ShareAt(xs[..|xs| - 1], Ps[..|xs| - 1], j); }
  }

  // Reading what was stored gives it back.
  lemma StoredRoundTrip(d: ParamData)
    requires Storing(d)
    ensures Fits(Fields(d)) && LongEnough(Fields(d)) && Stored(Fields(d)) == d
  {
    hide Encode, PointBytes, MpzBytes, Fits, StorablePoint, Big, PointOf, IntBytes, BytesInt;
    var a := Fields(d);
    HeadTail(d, a);
    IntRoundTrip(d.sharet); IntRoundTrip(d.sharen);
    MpzRoundTrip(d.p); MpzRoundTrip(d.q);
    PointRecovered(d.P); PointRecovered(d.Ppub);
    forall j | 0 <= j < d.sharen ensures Big(a[8 + 2 * j]) == d.robustx[j] && PointOf(a[9 + 2 * j]) == d.robustP[j] {
      ShareAt(d.robustx, d.robustP, j);
      assert a[8 + 2 * j] == ShareFields(d.robustx, d.robustP)[2 * j];
      assert a[9 + 2 * j] == ShareFields(d.robustx, d.robustP)[2 * j + 1];
      MpzRoundTrip(d.robustx[j]);
      PointRecovered(d.robustP[j]);
    }
    assert StoredX(a, d.sharen) == d.robustx && StoredP(a, d.sharen) == d.robustP;
  }

  // Different stored parameters have different strings.
  lemma StoredDetermines(d: ParamData, e: ParamData)
    requires Storing(d) && Storing(e) && Encode(Fields(d)) == Encode(Fields(e))
    ensures d == e
  {
    hide Encode, Fields, Stored;
    StoredRoundTrip(d);
    StoredRoundTrip(e);
    EncodeInjective(Fields(d), Fields(e));
  }
}
