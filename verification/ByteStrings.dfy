// byte_string.c: arrays of byte strings packed into one string, and integers as
// strings.
module ByteStrings {

  type Byte = b: int | 0 <= b < 256
  type Bytes = seq<Byte>

  datatype Option<T> = None | Some(value: T)

  // Two bytes, most significant first, of a C int.
  function Two(n: nat): (s: Bytes)
    ensures |s| == 2
  {
    [n / 256 % 256, n % 256]
  }

  function FromTwo(hi: Byte, lo: Byte): nat { hi * 256 + lo }

  function Headers(a: seq<Bytes>): (s: Bytes)
    ensures |s| == 2 * |a|
  {
    if a == [] then [] else Headers(a[..|a| - 1]) + Two(|a[|a| - 1]|)
  }

  function Concat(a: seq<Bytes>): Bytes {
    if a == [] then [] else Concat(a[..|a| - 1]) + a[|a| - 1]
  }

  // The count, the lengths, then the strings.
  function Encode(a: seq<Bytes>): Bytes {
    Two(|a|) + Headers(a) + Concat(a)
  }

  // The count and the lengths survive in two bytes each.
  predicate Fits(a: seq<Bytes>) {
    |a| < 65536 && forall i :: 0 <= i < |a| ==> |a[i]| < 65536
  }

  lemma TwoInverse(n: nat)
    ensures FromTwo(Two(n)[0], Two(n)[1]) == n <==> n < 65536
  {
  }

  lemma {:induction false} HeaderAt(a: seq<Bytes>, i: nat)
    requires i < |a|
    ensures Headers(a)[2 * i] == Two(|a[i]|)[0] && Headers(a)[2 * i + 1] == Two(|a[i]|)[1]
  {
    if i < |a| - 1 { HeaderAt(a[..|a| - 1], i); }
  }

  lemma {:induction false} HeadersDetermine(a: seq<Bytes>, h: Bytes)
    requires |h| == 2 * |a|
    requires forall i :: 0 <= i < |a| ==> h[2 * i] == Two(|a[i]|)[0] && h[2 * i + 1] == Two(|a[i]|)[1]
    ensures h == Headers(a)
  {
    if a != [] {
      var n := |a| - 1;
      assert forall i :: 0 <= i < n ==> a[..n][i] == a[i];
      HeadersDetermine(a[..n], h[..2 * n]);
      assert h == h[..2 * n] + [h[2 * n], h[2 * n + 1]];
    }
  }

  // Sums of lengths.
  function Total(lens: seq<nat>): nat {
    if lens == [] then 0 else Total(lens[..|lens| - 1]) + lens[|lens| - 1]
  }

  function Lengths(a: seq<Bytes>): seq<nat> { seq(|a|, i requires 0 <= i < |a| => |a[i]|) }

  lemma {:induction false} ConcatLength(a: seq<Bytes>)
    ensures |Concat(a)| == Total(Lengths(a))
  {
    if a != [] {
      var n := |a| - 1;
      ConcatLength(a[..n]);
      assert Lengths(a)[..n] == Lengths(a[..n]);
    }
  }

  lemma {:induction false} ConcatDetermines(a: seq<Bytes>, b: seq<Bytes>)
    requires |a| == |b| && Concat(a) == Concat(b) && Lengths(a) == Lengths(b)
    ensures a == b
  {
    if a != [] {
      var n := |a| - 1;
      var la, lb := Lengths(a), Lengths(b);
      assert la[n] == |a[n]| && lb[n] == |b[n]|;
      assert |Concat(a[..n])| == |Concat(b[..n])|;
      assert Concat(a)[..|Concat(a[..n])|] == Concat(a[..n]);
      assert Concat(b)[..|Concat(b[..n])|] == Concat(b[..n]);
      assert Concat(a)[|Concat(a[..n])|..] == a[n];
      assert Concat(b)[|Concat(b[..n])|..] == b[n];
      assert Lengths(a[..n]) == la[..n] == lb[..n] == Lengths(b[..n]);
      ConcatDetermines(a[..n], b[..n]);
      assert a == a[..n] + [a[n]] && b == b[..n] + [b[n]];
    }
  }

  // What the front of an encoding says.
  lemma EncodeParts(a: seq<Bytes>)
    requires Fits(a)
    ensures |Encode(a)| == 2 + 2 * |a| + |Concat(a)|
    ensures FromTwo(Encode(a)[0], Encode(a)[1]) == |a|
    ensures forall i :: 0 <= i < |a| ==> FromTwo(Encode(a)[2 + 2 * i], Encode(a)[3 + 2 * i]) == |a[i]|
    ensures Encode(a)[2 + 2 * |a|..] == Concat(a)
  {
    hide Two, FromTwo, Headers, Concat;
    TwoInverse(|a|);
    assert Encode(a)[0] == Two(|a|)[0] && Encode(a)[1] == Two(|a|)[1];
    forall i | 0 <= i < |a| ensures FromTwo(Encode(a)[2 + 2 * i], Encode(a)[3 + 2 * i]) == |a[i]| {
      HeaderAt(a, i);
      TwoInverse(|a[i]|);
      assert Encode(a)[2 + 2 * i] == Headers(a)[2 * i] && Encode(a)[3 + 2 * i] == Headers(a)[2 * i + 1];
    }
  }

  // Every byte of an encoding: the count, then every length in its order, each in
  // two bytes whatever its size, then every string in its order.
  lemma {:induction false} Format(a: seq<Bytes>, b: seq<Bytes>, u: Bytes)
    ensures Encode(a) == [|a| / 256 % 256, |a| % 256] + Headers(a) + Concat(a)
    ensures Headers([u]) == [|u| / 256 % 256, |u| % 256] && Headers(a + b) == Headers(a) + Headers(b)
    ensures Concat([u]) == u && Concat(a + b) == Concat(a) + Concat(b)
  {
    assert [u][..0] == [];
    if b == [] {
      assert a + b == a;
    } else {
      var n := |b| - 1;
      Format(a, b[..n], u);
      assert (a + b)[..|a + b| - 1] == a + b[..n];
    }
  }

  lemma EncodeInjective(a: seq<Bytes>, b: seq<Bytes>)
    requires Fits(a) && Fits(b) && Encode(a) == Encode(b)
    ensures a == b
  {
    EncodeParts(a);
    EncodeParts(b);
    forall i | 0 <= i < |a| ensures |a[i]| == |b[i]| {
      assert FromTwo(Encode(a)[2 + 2 * i], Encode(a)[3 + 2 * i]) == FromTwo(Encode(b)[2 + 2 * i], Encode(b)[3 + 2 * i]);
    }
    assert Lengths(a) == Lengths(b);
    ConcatDetermines(a, b);
  }

  // memcpy(&data[at], src, |src|)
  method CopyInto(data: array<Byte>, at: nat, src: Bytes)
    requires at + |src| <= data.Length
    modifies data
    ensures data[..] == old(data[..])[..at] + src + old(data[..])[at + |src|..]
  {
    forall k | 0 <= k < |src| { data[at + k] := src[k]; }
  }

  method EncodeArray(a: seq<Bytes>) returns (bs: Bytes)
    ensures bs == Encode(a)
  {
    var n := |a|;
    var len := EncodedLength(a);
    var data := new Byte[len];
    data[0] := n / 256 % 256;
    data[1] := n % 256;
    WriteLengths(data, a);
    var offset := 2 + 2 * n;
    for i := 0 to n
      invariant offset == 2 + 2 * n + |Concat(a[..i])| <= len
      invariant data[..offset] == Two(n) + Headers(a) + Concat(a[..i])
    {
      offset := WriteString(data, offset, a, i, Two(n) + Headers(a));
    }
    assert a[..n] == a;
    assert data[..] == data[..offset];
    bs := data[..];
  }

  method EncodedLength(a: seq<Bytes>) returns (len: nat)
    ensures len == 2 + 2 * |a| + |Concat(a)|
  {
    len := 2 + 2 * |a|;
    for i := 0 to |a|
      invariant len == 2 + 2 * |a| + |Concat(a[..i])|
    {
      assert a[..i + 1][..i] == a[..i];
      len := len + |a[i]|;
    }
    assert a[..|a|] == a;
  }

  method WriteLengths(data: array<Byte>, a: seq<Bytes>)
    requires data.Length >= 2 + 2 * |a| && data[..2] == Two(|a|)
    modifies data
    ensures data[..2 + 2 * |a|] == Two(|a|) + Headers(a)
  {
    var offset := 2;
    for i := 0 to |a|
      invariant offset == 2 + 2 * i && data[..offset] == Two(|a|) + Headers(a[..i])
    {
      assert a[..i + 1][..i] == a[..i];
      ghost var before := data[..offset];
      data[offset] := |a[i]| / 256 % 256;
      offset := offset + 1;
      data[offset] := |a[i]| % 256;
      offset := offset + 1;
      assert data[..offset] == before + Two(|a[i]|);
    }
    assert a[..|a|] == a;
  }

  method WriteString(data: array<Byte>, offset: nat, a: seq<Bytes>, i: nat, ghost front: Bytes) returns (next: nat)
    requires i < |a| && offset == |front| + |Concat(a[..i])| && |front| + |Concat(a)| <= data.Length
    requires offset <= data.Length && data[..offset] == front + Concat(a[..i])
    modifies data
    ensures next == |front| + |Concat(a[..i + 1])| <= data.Length
    ensures data[..next] == front + Concat(a[..i + 1])
  {
    PrefixFits(a, i);
    assert a[..i + 1][..i] == a[..i];
    ghost var before := data[..offset];
    CopyInto(data, offset, a[i]);
    next := offset + |a[i]|;
    assert data[..next] == before + a[i];
  }

  lemma {:induction false} PrefixFits(a: seq<Bytes>, i: nat)
    requires i < |a|
    ensures |Concat(a[..i])| + |a[i]| <= |Concat(a)|
    decreases |a|
  {
    if i < |a| - 1 {
      PrefixFits(a[..|a| - 1], i);
      assert a[..|a| - 1][..i] == a[..i];
    }
  }

  // Accepts exactly the encodings, and returns what was encoded.
  method DecodeArray(bs: Bytes) returns (r: Option<seq<Bytes>>)
    ensures r.Some? ==> Fits(r.value) && Encode(r.value) == bs
    ensures r.Some? ==> |r.value| < 65536 && forall i :: 0 <= i < |r.value| ==> |r.value[i]| < 65536
    ensures r.None? ==> forall a :: Fits(a) ==> Encode(a) != bs
    ensures r.None? ==>
              forall a :: |a| < 65536 && (forall i :: 0 <= i < |a| ==> |a[i]| < 65536) ==> Encode(a) != bs
  {
    hide Encode, FromTwo, Total, Concat;
    if |bs| < 2 {
      forall a | Fits(a) && Encode(a) == bs ensures false { EncodeParts(a); }
      return None;
    }
    var n := FromTwo(bs[0], bs[1]);
    if |bs| < 2 + 2 * n {
      forall a | Fits(a) && Encode(a) == bs ensures false { EncodeParts(a); }
      return None;
    }
    var lens, total, offset := ReadLengths(bs, n);
    if |bs| != total + offset {
      forall a | Fits(a) && Encode(a) == bs ensures false { EncodeParts(a); EncodedTotal(a, lens); }
      return None;
    }
    var a := ReadStrings(bs, offset, lens);
    DecodedIsEncoding(bs, n, lens, a);
    r := Some(a);
  }

  lemma EncodedTotal(a: seq<Bytes>, lens: seq<nat>)
    requires Fits(a) && |lens| == |a|
    requires |Encode(a)| >= 2 + 2 * |a|
    requires forall k :: 0 <= k < |lens| ==> lens[k] == FromTwo(Encode(a)[2 + 2 * k], Encode(a)[3 + 2 * k])
    ensures |Encode(a)| == Total(lens) + 2 + 2 * |a|
  {
    EncodeParts(a);
    ConcatLength(a);
    assert Lengths(a) == lens;
  }

  method ReadLengths(bs: Bytes, n: nat) returns (lens: seq<nat>, total: nat, offset: nat)
    requires |bs| >= 2 + 2 * n
    ensures |lens| == n && total == Total(lens) && offset == 2 + 2 * n
    ensures forall k :: 0 <= k < n ==> lens[k] == FromTwo(bs[2 + 2 * k], bs[3 + 2 * k])
  {
    lens := [];
    offset := 2;
    total := 0;
    for i := 0 to n
      invariant offset == 2 + 2 * i && |lens| == i && total == Total(lens)
      invariant forall k :: 0 <= k < i ==> lens[k] == FromTwo(bs[2 + 2 * k], bs[3 + 2 * k])
    {
      var len := FromTwo(bs[offset], bs[offset + 1]);
      offset := offset + 2;
      assert (lens + [len])[..i] == lens;
      lens := lens + [len];
      total := total + len;
    }
  }

  // The first i strings have been read, up to the offset.
  ghost predicate Taken(bs: Bytes, start: nat, offset: nat, lens: seq<nat>, i: nat, a: seq<Bytes>) {
    && |a| == i <= |lens| && (forall k :: 0 <= k < i ==> |a[k]| == lens[k])
    && offset == start + Total(lens[..i]) <= |bs| && bs[start..offset] == Concat(a)
  }

  lemma TakeNext(bs: Bytes, start: nat, offset: nat, lens: seq<nat>, i: nat, a: seq<Bytes>)
    requires |bs| == start + Total(lens) && i < |lens| && Taken(bs, start, offset, lens, i, a)
    ensures offset + lens[i] <= |bs|
    ensures Taken(bs, start, offset + lens[i], lens, i + 1, a + [bs[offset..offset + lens[i]]])
  {
    hide Total, Concat;
    TotalPrefix(lens, i);
    TotalLast(lens, i);
    var part := bs[offset..offset + lens[i]];
    ConcatLast(a, part);
    SliceNext(bs, start, offset, offset + lens[i]);
    LengthsNext(a, part, lens);
  }

  lemma SliceNext(bs: Bytes, i: nat, j: nat, k: nat)
    requires i <= j <= k <= |bs|
    ensures bs[i..k] == bs[i..j] + bs[j..k]
  {
  }

  lemma LengthsNext(a: seq<Bytes>, part: Bytes, lens: seq<nat>)
    requires |a| < |lens| && (forall k :: 0 <= k < |a| ==> |a[k]| == lens[k]) && |part| == lens[|a|]
    ensures forall k :: 0 <= k < |a + [part]| ==> |(a + [part])[k]| == lens[k]
  {
  }

  lemma TotalLast(lens: seq<nat>, i: nat)
    requires i < |lens|
    ensures Total(lens[..i + 1]) == Total(lens[..i]) + lens[i]
  {
    assert lens[..i + 1][..i] == lens[..i];
  }

  lemma ConcatLast(a: seq<Bytes>, part: Bytes)
    ensures Concat(a + [part]) == Concat(a) + part
  {
    assert (a + [part])[..|a|] == a;
  }

  method ReadStrings(bs: Bytes, start: nat, lens: seq<nat>) returns (a: seq<Bytes>)
    requires |bs| == start + Total(lens)
    ensures |a| == |lens| && (forall k :: 0 <= k < |a| ==> |a[k]| == lens[k]) && bs[start..] == Concat(a)
  {
    hide Taken, Total, Concat;
    a := [];
    var offset: nat := start;
    TakenNone(bs, start, lens);
    for i := 0 to |lens|
      invariant Taken(bs, start, offset, lens, i, a)
    {
      TakeNext(bs, start, offset, lens, i, a);
      a := a + [bs[offset..offset + lens[i]]];
      offset := offset + lens[i];
    }
    TakenAll(bs, start, offset, lens, a);
  }

  lemma TakenNone(bs: Bytes, start: nat, lens: seq<nat>)
    requires |bs| == start + Total(lens)
    ensures Taken(bs, start, start, lens, 0, [])
  {
  }

  lemma TakenAll(bs: Bytes, start: nat, offset: nat, lens: seq<nat>, a: seq<Bytes>)
    requires |bs| == start + Total(lens) && Taken(bs, start, offset, lens, |lens|, a)
    ensures |a| == |lens| && (forall k :: 0 <= k < |a| ==> |a[k]| == lens[k]) && bs[start..] == Concat(a)
  {
    hide Total, Concat;
    assert lens[..|lens|] == lens;
  }

  lemma {:induction false} TotalPrefix(lens: seq<nat>, i: nat)
    requires i < |lens|
    ensures Total(lens[..i]) + lens[i] <= Total(lens)
    decreases |lens|
  {
    if i < |lens| - 1 {
      TotalPrefix(lens[..|lens| - 1], i);
      assert lens[..|lens| - 1][..i] == lens[..i];
    }
  }

  lemma DecodedIsEncoding(bs: Bytes, n: nat, lens: seq<nat>, a: seq<Bytes>)
    requires |bs| >= 2 + 2 * n && n == FromTwo(bs[0], bs[1]) && |lens| == n == |a|
    requires forall k :: 0 <= k < n ==> lens[k] == FromTwo(bs[2 + 2 * k], bs[3 + 2 * k]) && |a[k]| == lens[k]
    requires bs[2 + 2 * n..] == Concat(a)
    ensures Fits(a) && Encode(a) == bs
  {
    hide Two, FromTwo, Headers, Concat;
    var h := bs[2..2 + 2 * n];
    forall i | 0 <= i < |a| ensures h[2 * i] == Two(|a[i]|)[0] && h[2 * i + 1] == Two(|a[i]|)[1] && |a[i]| < 65536 {
      assert h[2 * i] == bs[2 + 2 * i] && h[2 * i + 1] == bs[3 + 2 * i];
      TwoOfFromTwo(bs[2 + 2 * i], bs[3 + 2 * i]);
    }
    HeadersDetermine(a, h);
    TwoOfFromTwo(bs[0], bs[1]);
    assert bs[..2] == Two(n);
    assert bs == bs[..2] + h + bs[2 + 2 * n..];
  }

  lemma TwoOfFromTwo(hi: Byte, lo: Byte)
    ensures Two(FromTwo(hi, lo)) == [hi, lo] && FromTwo(hi, lo) < 65536
  {
  }

  // ----- pairs -----

  method Join(bs1: Bytes, bs2: Bytes) returns (bs: Bytes)
    ensures bs == Encode([bs1, bs2])
  {
    bs := EncodeArray([bs1, bs2]);
  }

  // The two strings packed in bs, or two empty strings when it is not a pair.
  ghost function Halves(bs: Bytes): (r: (Bytes, Bytes))
    ensures if exists u, v :: IsPair(bs, u, v) then IsPair(bs, r.0, r.1) else r == ([], [])
  {
    if exists u, v :: IsPair(bs, u, v) then
      var u, v :| IsPair(bs, u, v);
      (u, v)
    else ([], [])
  }

  ghost predicate IsPair(bs: Bytes, u: Bytes, v: Bytes) {
    |u| < 65536 && |v| < 65536 && bs == Encode([u, v])
  }

  // The bytes of a pair.
  lemma PairFormat(u: Bytes, v: Bytes)
    ensures Encode([u, v]) == [0, 2, |u| / 256 % 256, |u| % 256, |v| / 256 % 256, |v| % 256] + u + v
  {
    assert [u] + [v] == [u, v];
    Format([u], [v], u);
    Format([u, v], [], v);
  }

  // A pair has one pair of halves.
  lemma HalvesOfPair(u: Bytes, v: Bytes)
    requires |u| < 65536 && |v| < 65536
    ensures Halves(Encode([u, v])) == (u, v)
  {
    hide Encode;
    assert IsPair(Encode([u, v]), u, v);
    var h := Halves(Encode([u, v]));
    PairInjective(u, v, h.0, h.1);
  }

  lemma PairInjective(u: Bytes, v: Bytes, a: Bytes, b: Bytes)
    requires |u| < 65536 && |v| < 65536 && |a| < 65536 && |b| < 65536 && Encode([u, v]) == Encode([a, b])
    ensures u == a && v == b
  {
    hide Encode;
    assert Fits([u, v]) && Fits([a, b]);
    EncodeInjective([u, v], [a, b]);
    assert [u, v][0] == [a, b][0] && [u, v][1] == [a, b][1];
  }

  method Split(bs: Bytes) returns (bs1: Bytes, bs2: Bytes)
    ensures (bs1, bs2) == Halves(bs)
  {
    hide Encode, Halves;
    var r := DecodeArray(bs);
    if r.Some? && |r.value| == 2 {
      bs1, bs2 := r.value[0], r.value[1];
      assert r.value == [bs1, bs2];
      HalvesOfPair(bs1, bs2);
    } else {
      bs1, bs2 := [], [];
      NotAPair(bs, r);
    }
  }

  lemma NotAPair(bs: Bytes, r: Option<seq<Bytes>>)
    requires r.Some? ==> Fits(r.value) && Encode(r.value) == bs && |r.value| != 2
    requires r.None? ==> forall a :: Fits(a) ==> Encode(a) != bs
    ensures Halves(bs) == ([], [])
  {
    hide Encode;
    forall u, v | IsPair(bs, u, v) ensures false {
      assert Fits([u, v]);
      if r.Some? { EncodeInjective([u, v], r.value); }
    }
  }

  // ----- integers -----

  // The cast to a byte comes before the shift, so only the lowest byte is kept.
  function IntBytes(n: int): Bytes { [0, 0, 0, n % 256] }

  method SetInt(n: int) returns (bs: Bytes)
    ensures bs == IntBytes(n) == [0, 0, 0, n % 256]
  {
    var c: Byte := n % 256;
    var data := new Byte[4];
    data[0] := c / 0x1000000;
    data[1] := c / 0x10000;
    data[2] := c / 0x100;
    data[3] := c;
    bs := data[..];
  }

  // 32-bit two's complement.
  function Wrap32(n: int): int { (n + 0x8000_0000) % 0x1_0000_0000 - 0x8000_0000 }

  function BytesInt(bs: Bytes): int {
    if |bs| != 4 then 0
    else Wrap32(bs[3] as int + bs[2] as int * 0x100 + bs[1] as int * 0x10000 + bs[0] as int * 0x1000000)
  }

  // Inverts SetInt on single bytes; a string of another length reads as 0.
  method IntFrom(bs: Bytes) returns (n: int)
    ensures n == BytesInt(bs)
    ensures forall k :: 0 <= k < 256 && bs == IntBytes(k) ==> n == k
    ensures -0x8000_0000 <= n < 0x8000_0000 && (|bs| != 4 ==> n == 0)
    ensures |bs| == 4 ==>
              n == ((bs[0] as int * 256 + bs[1]) * 256 + bs[2]) * 256 + bs[3] - if bs[0] < 128 then 0 else 0x1_0000_0000
  {
    if |bs| != 4 {
      return 0;
    }
    n := Wrap32(bs[3] as int + bs[2] as int * 0x100 + bs[1] as int * 0x10000 + bs[0] as int * 0x1000000);
  }

  // The round trip works for a byte and for nothing else.
  lemma IntRoundTrip(n: int)
    ensures BytesInt(IntBytes(n)) == n <==> 0 <= n < 256
  {
  }
}
