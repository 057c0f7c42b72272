// crypto.c: encryption and decryption of a stream cut into pieces.  The stream is
// IV, ciphertext body, MAC; decryption does not know where the MAC begins and
// therefore holds back the last md_length bytes it has received.
module Streaming {
  import opened ByteStrings

  // The cipher, the MAC and the key derivation, which are foreign code.  The
  // cipher functions map a key, an IV and all bytes given so far to all bytes
  // produced so far, and then to the bytes that finishing produces.
  datatype Suite = Suite(
    ivLength: nat,
    mdLength: nat,
    deriveKey: Bytes -> Bytes,
    hash: Bytes -> Bytes,
    mac: (Bytes, Bytes) -> Bytes,
    enc: (Bytes, Bytes, Bytes) -> Bytes,
    encFinal: (Bytes, Bytes, Bytes) -> Bytes,
    dec: (Bytes, Bytes, Bytes) -> Bytes,
    decFinal: (Bytes, Bytes, Bytes) -> Option<Bytes>)

  // What is assumed of them: outputs start empty and only grow, and MACs have
  // the right length.
  ghost predicate Sound(s: Suite) {
    && 0 < s.ivLength <= s.mdLength
    && (forall k, m :: |s.mac(k, m)| == s.mdLength)
    && (forall k, iv :: s.dec(k, iv, []) == [] && s.enc(k, iv, []) == [])
    && (forall k, iv, f, g :: s.dec(k, iv, f) <= s.dec(k, iv, f + g))
    && (forall k, iv, f, g :: s.enc(k, iv, f) <= s.enc(k, iv, f + g))
  }

  // Decryption undoes encryption.
  ghost predicate Inverse(s: Suite) {
    forall k, iv, m :: |iv| == s.ivLength ==>
      var body := s.enc(k, iv, m) + s.encFinal(k, iv, m);
      s.decFinal(k, iv, body).Some? && s.dec(k, iv, body) + s.decFinal(k, iv, body).value == m
  }

  // Independent keys from one secret.
  function CipherKey(s: Suite, secret: Bytes): Bytes { s.deriveKey(secret + ['1' as int]) }

  function MacKey(s: Suite, secret: Bytes): Bytes { s.hash(secret + ['2' as int]) }

  // crypto_make_chkeys
  method MakeKeys(s: Suite, secret: Bytes) returns (ckey: Bytes, hkey: Bytes)
    ensures ckey == CipherKey(s, secret) == s.deriveKey(secret + [49])
    ensures hkey == MacKey(s, secret) == s.hash(secret + [50])
  {
    var bs1 := new Byte[|secret| + 1];
    var bs2 := new Byte[|secret| + 1];
    CopyInto(bs1, 0, secret);
    bs1[|secret|] := '1' as int;
    CopyInto(bs2, 0, secret);
    bs2[|secret|] := '2' as int;
    assert bs1[..] == secret + [49] && bs2[..] == secret + [50];
    ckey := s.deriveKey(bs1[..]);
    hkey := s.hash(bs2[..]);
  }

  ghost predicate Injective(f: Bytes -> Bytes) { forall u, v :: f(u) == f(v) ==> u == v }

  // The keys depend on the secret, and on all of it, as far as the foreign
  // functions do.
  lemma KeysDetermine(s: Suite, u: Bytes, v: Bytes)
    requires Injective(s.hash) && Injective(s.deriveKey)
    ensures MacKey(s, u) == MacKey(s, v) <==> u == v
    ensures CipherKey(s, u) == CipherKey(s, v) <==> u == v
  {
    LastByte(u, 49, v, 49);
    LastByte(u, 50, v, 50);
  }

  // No secret's cipher key is any secret's MAC key, even when one function
  // makes both.
  lemma KeysApart(s: Suite, u: Bytes, v: Bytes)
    requires Injective(s.hash) && forall m :: s.hash(m) == s.deriveKey(m)
    ensures CipherKey(s, u) != MacKey(s, v)
  {
    LastByte(u, 49, v, 50);
    assert CipherKey(s, u) == s.hash(u + [49]);
  }

  lemma LastByte(u: Bytes, b: Byte, v: Bytes, c: Byte)
    ensures u + [b] == v + [c] <==> u == v && b == c
  {
    if u + [b] == v + [c] {
      assert (u + [b])[|u|] == b && (v + [c])[|v|] == c;
      assert (u + [b])[..|u|] == u && (v + [c])[..|v|] == v;
    }
  }

  // Seen through functions that change nothing, the keys are the secret with
  // the character 1 or 2 behind it.
  lemma KeyBytes(s: Suite, secret: Bytes)
    requires forall m :: s.hash(m) == m && s.deriveKey(m) == m
    ensures CipherKey(s, secret) == secret + [49] && MacKey(s, secret) == secret + [50]
  {
  }

  function Min(a: int, b: int): int { if a < b then a else b }

  // memmove(data, &data[from], n)
  method MoveDown(data: array<Byte>, from: nat, n: nat)
    requires from + n <= data.Length
    modifies data
    ensures data[..n] == old(data[from..from + n])
  {
    forall k | 0 <= k < n { data[k] := data[from + k]; }
  }

  // ----- decryption -----

  // The parts of a stream C that is at least an IV long.
  function TailLength(s: Suite, C: Bytes): nat
    requires |C| >= s.ivLength
  {
    Min(s.mdLength, |C| - s.ivLength)
  }

  function Body(s: Suite, C: Bytes): Bytes
    requires |C| >= s.ivLength
  {
    C[s.ivLength..|C| - TailLength(s, C)]
  }

  function Tail(s: Suite, C: Bytes): Bytes
    requires |C| >= s.ivLength
  {
    C[|C| - TailLength(s, C)..]
  }

  // What the cipher has produced when C has been received.
  function Produced(s: Suite, secret: Bytes, C: Bytes): Bytes {
    if |C| < s.ivLength then [] else Dec(s, CipherKey(s, secret), C[..s.ivLength], Body(s, C))
  }

  function Dec(s: Suite, key: Bytes, iv: Bytes, given: Bytes): Bytes { s.dec(key, iv, given) }

  lemma DecGrows(s: Suite, key: Bytes, iv: Bytes, f: Bytes, g: Bytes)
    requires Sound(s)
    ensures Dec(s, key, iv, f) <= Dec(s, key, iv, f + g)
  {
  }

  lemma DecEmpty(s: Suite, key: Bytes, C: Bytes)
    requires Sound(s) && |C| == s.ivLength
    ensures Body(s, C) == [] && Dec(s, key, C[..s.ivLength], Body(s, C)) == []
  {
  }

  // Of the bytes after the IV the last md are held back, the others have gone
  // to the cipher and, after the IV, to the MAC.
  ghost predicate Held(md: nat, held: Bytes, given: Bytes, iv: Bytes, absorbed: Bytes, body: Bytes) {
    |held| == Min(md, |body|) && given + held == body && absorbed == iv + given
  }

  lemma HeldMore(md: nat, held: Bytes, given: Bytes, iv: Bytes, absorbed: Bytes, body: Bytes, vin: Bytes)
    requires Held(md, held, given, iv, absorbed, body) && |held| + |vin| <= md
    ensures Held(md, held + vin, given, iv, absorbed, body + vin)
  {
    assert given + (held + vin) == given + held + vin;
  }

  lemma HeldFull(md: nat, held: Bytes, given: Bytes, iv: Bytes, absorbed: Bytes, body: Bytes, vin: Bytes, rest: nat)
    requires Held(md, held, given, iv, absorbed, body) && rest <= |vin| && |vin| - rest == md
    ensures Held(md, vin[rest..], given + held + vin[..rest], iv, absorbed + held + vin[..rest], body + vin)
  {
    assert given + held + vin[..rest] + vin[rest..] == body + vin;
    assert iv + given + held + vin[..rest] == iv + (given + held + vin[..rest]);
  }

  lemma HeldPartial(md: nat, held: Bytes, given: Bytes, iv: Bytes, absorbed: Bytes, body: Bytes, vin: Bytes, n: nat)
    requires Held(md, held, given, iv, absorbed, body) && n <= |held| && |held| + |vin| - n == md && n > 0
    ensures Held(md, held[n..] + vin, given + held[..n], iv, absorbed + held[..n], body + vin)
  {
    assert given + held[..n] + (held[n..] + vin) == given + held + vin;
    assert iv + given + held[..n] == iv + (given + held[..n]);
  }

  lemma SplitBody(s: Suite, C: Bytes, held: Bytes, given: Bytes, absorbed: Bytes)
    requires |C| >= s.ivLength && Held(s.mdLength, held, given, C[..s.ivLength], absorbed, C[s.ivLength..])
    ensures given == Body(s, C) && held == Tail(s, C) && |held| == TailLength(s, C)
    ensures absorbed == C[..s.ivLength] + Body(s, C)
  {
    var body := C[s.ivLength..];
    assert given == body[..|body| - |held|] && held == body[|body| - |held|..];
  }

  // What finishing produces when C has been received.
  function Finished(s: Suite, secret: Bytes, C: Bytes): Option<Bytes>
    requires |C| >= s.ivLength
  {
    s.decFinal(CipherKey(s, secret), C[..s.ivLength], Body(s, C))
  }

  class DecryptCtx {
    const suite: Suite
    var state: nat
    var count: nat
    var auxbuf: array<Byte>
    var ivbuf: array<Byte>
    // the HMAC context: its key and the bytes absorbed
    var hkey: Bytes
    var absorbed: Bytes
    // the cipher context: its key, its IV and the bytes given to it
    var ckey: Bytes
    var iv: Bytes
    var given: Bytes
    ghost var secret: Bytes
    ghost var received: Bytes

    // The whole state is determined by the bytes received.
    ghost predicate Valid()
      reads this, auxbuf, ivbuf
    {
      && Sound(suite) && hkey == MacKey(suite, secret) && auxbuf != ivbuf
      && if state == 0 then
           && |received| == count < suite.ivLength == ivbuf.Length
           && ivbuf[..count] == received
           && auxbuf[..] == CipherKey(suite, secret)
           && absorbed == [] && given == []
         else
           && |received| >= suite.ivLength && iv == received[..suite.ivLength]
           && ckey == CipherKey(suite, secret)
           && Holding(received[suite.ivLength..])
    }

    ghost predicate Holding(body: Bytes)
      reads this, auxbuf
    {
      auxbuf.Length == suite.mdLength && 0 <= count <= auxbuf.Length &&
      Held(suite.mdLength, auxbuf[..count], given, iv, absorbed, body)
    }

    constructor (s: Suite, key: Bytes)
      requires Sound(s)
      ensures Valid() && suite == s && secret == key && received == []
      ensures state == 0 && auxbuf[..] == s.deriveKey(key + [49]) && hkey == s.hash(key + [50])
      ensures fresh(auxbuf) && fresh(ivbuf)
    {
      suite := s;
      state, count := 0, 0;
      var ck, hk := MakeKeys(s, key);
      auxbuf := new Byte[|ck|](i requires 0 <= i < |ck| => ck[i]);
      ivbuf := new Byte[s.ivLength];
      hkey := hk;
      absorbed, ckey, iv, given := [], [], [], [];
      secret, received := key, [];
    }

    // crypto_decrypt_advance
    method Advance(src: Bytes) returns (out: Bytes)
      requires Sound(suite)
      modifies this`absorbed, this`given
      ensures absorbed == old(absorbed) + src && given == old(given) + src
      ensures Dec(suite, ckey, iv, old(given)) + out == Dec(suite, ckey, iv, given)
    {
      absorbed := absorbed + src;
      DecGrows(suite, ckey, iv, given, src);
      var before := Dec(suite, ckey, iv, given);
      given := given + src;
      var after := Dec(suite, ckey, iv, given);
      out := after[|before|..];
    }

    // Receiving vin once the IV is complete.
    method Absorb(vin: Bytes, ghost body: Bytes) returns (out: Bytes)
      requires Sound(suite) && Holding(body)
      modifies this`absorbed, this`given, this`count, auxbuf
      ensures Holding(body + vin)
      ensures Dec(suite, ckey, iv, old(given)) + out == Dec(suite, ckey, iv, given)
    {
      hide Sound, Held, Dec;
      out := [];
      var flushcount := count + |vin| - suite.mdLength;
      if flushcount > 0 {
        if count <= flushcount {
          out := FullFlush(vin, flushcount, body);
        } else {
          out := PartialFlush(vin, flushcount, body);
        }
      } else {
        ghost var held := auxbuf[..count];
        CopyInto(auxbuf, count, vin);
        count := count + |vin|;
        assert auxbuf[..count] == held + vin;
        HeldMore(suite.mdLength, held, given, iv, absorbed, body, vin);
      }
    }

    method FullFlush(vin: Bytes, flushcount: nat, ghost body: Bytes) returns (out: Bytes)
      requires Sound(suite) && Holding(body) && flushcount == count + |vin| - suite.mdLength && count <= flushcount
      modifies this`absorbed, this`given, this`count, auxbuf
      ensures Holding(body + vin)
      ensures Dec(suite, ckey, iv, old(given)) + out == Dec(suite, ckey, iv, given)
    {
      hide Sound, Held, Dec;
      ghost var held, given0, absorbed0 := auxbuf[..count], given, absorbed;
      out := [];
      if count != 0 {
        out := Advance(auxbuf[..count]);
      }
      assert given == given0 + held && absorbed == absorbed0 + held;
      var rest := flushcount - count;
      if rest > 0 {
        var more := Advance(vin[..rest]);
        out := out + more;
      }
      assert given == given0 + held + vin[..rest] && absorbed == absorbed0 + held + vin[..rest];
      CopyInto(auxbuf, 0, vin[rest..]);
      count := suite.mdLength;
      assert auxbuf[..count] == vin[rest..];
      HeldFull(suite.mdLength, held, given0, iv, absorbed0, body, vin, rest);
    }

    method PartialFlush(vin: Bytes, flushcount: nat, ghost body: Bytes) returns (out: Bytes)
      requires Sound(suite) && Holding(body) && flushcount == count + |vin| - suite.mdLength && 0 < flushcount < count
      modifies this`absorbed, this`given, this`count, auxbuf
      ensures Holding(body + vin)
      ensures Dec(suite, ckey, iv, old(given)) + out == Dec(suite, ckey, iv, given)
    {
      hide Sound, Held, Dec;
      ghost var held, given0, absorbed0 := auxbuf[..count], given, absorbed;
      out := Advance(auxbuf[..flushcount]);
      assert held[..flushcount] == auxbuf[..flushcount];
      MoveDown(auxbuf, flushcount, count - flushcount);
      count := count - flushcount;
      assert auxbuf[..count] == held[flushcount..];
      CopyInto(auxbuf, count, vin);
      count := count + |vin|;
      assert auxbuf[..count] == held[flushcount..] + vin;
      HeldPartial(suite.mdLength, held, given0, iv, absorbed0, body, vin, flushcount);
    }

    // crypto_decrypt_update
    method Update(input: Bytes) returns (out: Bytes)
      requires Valid()
      modifies this, auxbuf, ivbuf
      ensures Valid() && secret == old(secret) && received == old(received) + input
      ensures auxbuf == old(auxbuf) || fresh(auxbuf)
      ensures ivbuf == old(ivbuf)
      ensures Produced(suite, secret, old(received)) + out == Produced(suite, secret, received)
    {
      hide Sound, Held, Dec, CipherKey, MacKey;
      var vin := input;
      if state == 0 {
        var l := if count + |input| >= suite.ivLength then suite.ivLength - count else |input|;
        var complete := count + |input| >= suite.ivLength;
        ReadIv(input[..l]);
        if !complete {
          assert input[..l] == input;
          return [];
        }
        ghost var C := received;
        StartBody(C);
        assert old(received) + input == C + input[l..];
        vin := input[l..];
        if |vin| == 0 {
          return [];
        }
      }
      HeldIsBody(received);
      out := UpdateBody(vin);
    }

    method ReadIv(part: Bytes)
      requires Valid() && state == 0 && count + |part| <= suite.ivLength
      modifies this`count, this`received, ivbuf
      ensures received == old(received) + part && count == old(count) + |part|
      ensures ivbuf[..count] == received && auxbuf[..] == old(auxbuf[..])
      ensures count < suite.ivLength ==> Valid()
    {
      hide Sound, Held, Dec, CipherKey, MacKey;
      CopyInto(ivbuf, count, part);
      count := count + |part|;
      received := received + part;
      assert ivbuf[..count] == received;
    }

    method UpdateBody(vin: Bytes) returns (out: Bytes)
      requires Valid() && state != 0
      modifies this`absorbed, this`given, this`count, this`received, auxbuf
      ensures Valid() && received == old(received) + vin
      ensures Produced(suite, secret, old(received)) + out == Produced(suite, secret, received)
    {
      hide Sound, Held, Dec, CipherKey, MacKey;
      ghost var C := received;
      HeldIsBody(C);
      out := Absorb(vin, C[suite.ivLength..]);
      received := C + vin;
      assert received[suite.ivLength..] == C[suite.ivLength..] + vin &&
             received[..suite.ivLength] == C[..suite.ivLength];
      HeldIsBody(received);
    }

    // The IV is complete: the cipher starts and auxbuf changes its role.
    method StartBody(ghost C: Bytes)
      requires Sound(suite) && hkey == MacKey(suite, secret) && auxbuf != ivbuf && state == 0
      requires auxbuf[..] == CipherKey(suite, secret) && absorbed == [] && given == []
      requires |C| == suite.ivLength == ivbuf.Length && ivbuf[..] == C
      modifies this
      ensures Valid() && state == 1 && received == C && secret == old(secret)
      ensures fresh(auxbuf) && ivbuf == old(ivbuf)
      ensures Produced(suite, secret, C) == []
    {
      hide CipherKey, MacKey;
      DecEmpty(suite, CipherKey(suite, secret), C);
      state := 1;
      ckey := auxbuf[..];
      iv := ivbuf[..];
      absorbed := absorbed + ivbuf[..];
      auxbuf := new Byte[suite.mdLength];
      count := 0;
      received := C;
    }

    lemma HeldIsBody(C: Bytes)
      requires Valid() && state != 0 && received == C
      ensures given == Body(suite, C) && auxbuf[..count] == Tail(suite, C) && count == TailLength(suite, C)
      ensures absorbed == C[..suite.ivLength] + Body(suite, C)
      ensures count == if |C| - suite.ivLength < suite.mdLength then |C| - suite.ivLength else suite.mdLength
      ensures given == C[suite.ivLength..|C| - count] && absorbed == C[..|C| - count]
      ensures auxbuf[..count] == C[|C| - count..]
      ensures Produced(suite, secret, C) == Dec(suite, ckey, iv, given)
    {
      hide Sound, Dec, CipherKey, MacKey;
      SplitBody(suite, C, auxbuf[..count], given, absorbed);
    }

    // crypto_decrypt_final
    method Final() returns (ok: bool, out: Bytes)
      requires Valid()
      ensures ok <==> Authentic(suite, secret, received)
                      && Finished(suite, secret, received).Some?
      ensures ok ==> out == Finished(suite, secret, received).value
    {
      hide Sound, Held, Dec, CipherKey, MacKey;
      ghost var C := received;
      out := [];
      MacLength(suite, hkey, absorbed);
      if count != suite.mdLength {
        ok := false;
        if state != 0 { HeldIsBody(C); }
        return;
      }
      HeldIsBody(C);
      var mac := suite.mac(hkey, absorbed);
      WholeStream(suite, C);
      if mac != auxbuf[..] {
        ok := false;
        return;
      }
      var r := suite.decFinal(ckey, iv, given);
      ok := r.Some?;
      if ok { out := r.value; }
    }
  }

  lemma MacLength(s: Suite, key: Bytes, m: Bytes)
    requires Sound(s)
    ensures |s.mac(key, m)| == s.mdLength && s.ivLength <= s.mdLength
  {
  }

  // The MAC at the end of C is that of everything before it.
  ghost predicate Authentic(s: Suite, secret: Bytes, C: Bytes) {
    && |C| >= s.ivLength + s.mdLength
    && C[|C| - s.mdLength..] == s.mac(MacKey(s, secret), C[..|C| - s.mdLength])
  }

  lemma WholeStream(s: Suite, C: Bytes)
    requires |C| >= s.ivLength + s.mdLength
    ensures C[..s.ivLength] + Body(s, C) == C[..|C| - s.mdLength] && Tail(s, C) == C[|C| - s.mdLength..]
  {
  }

  // ----- encryption -----

  class EncryptCtx {
    const suite: Suite
    var state: nat
    var ivbuf: Bytes
    var hkey: Bytes
    var absorbed: Bytes
    var ckey: Bytes
    var iv: Bytes
    var given: Bytes
    ghost var sent: Bytes      // everything that the updates have written

    ghost predicate Valid()
      reads this
    {
      && Sound(suite) && absorbed == sent && |iv| == suite.ivLength
      && if state == 0 then ivbuf == iv && sent == [] && given == [] else sent == iv + Enc(suite, ckey, iv, given)
    }

    // The salt is random in the source and a parameter here.
    constructor (s: Suite, secret: Bytes, salt: Bytes)
      requires Sound(s) && |salt| == s.ivLength
      ensures Valid() && suite == s && state == 0 && given == [] && iv == salt
      ensures ckey == CipherKey(s, secret) == s.deriveKey(secret + [49])
      ensures hkey == MacKey(s, secret) == s.hash(secret + [50])
    {
      suite := s;
      state := 0;
      ivbuf, iv := salt, salt;
      var ck, hk := MakeKeys(s, secret);
      hkey, absorbed := hk, [];
      ckey, given, sent := ck, [], [];
    }

    // crypto_encrypt_update
    method Update(input: Bytes) returns (out: Bytes)
      requires Valid()
      modifies this`state, this`ivbuf, this`absorbed, this`given, this`sent
      ensures Valid() && state != 0 && given == old(given) + input && sent == old(sent) + out
      ensures sent == iv + suite.enc(ckey, iv, given)
    {
      hide Sound;
      EncGrows(suite, ckey, iv, given, input);
      var before := Enc(suite, ckey, iv, given);
      given := given + input;
      var more := Enc(suite, ckey, iv, given)[|before|..];
      if state == 0 {
        state := state + 1;
        out := ivbuf + more;
        ivbuf := [];
      } else {
        out := more;
      }
      absorbed := absorbed + out;
      sent := sent + out;
    }

    // crypto_encrypt_final
    method Final() returns (out: Bytes)
      requires Valid()
      modifies this`absorbed
      ensures out == suite.encFinal(ckey, iv, given) + suite.mac(hkey, sent + suite.encFinal(ckey, iv, given))
    {
      hide Sound, Enc;
      out := suite.encFinal(ckey, iv, given);
      absorbed := absorbed + out;
      out := out + suite.mac(hkey, absorbed);
    }
  }

  function Enc(s: Suite, key: Bytes, iv: Bytes, given: Bytes): Bytes { s.enc(key, iv, given) }

  lemma EncGrows(s: Suite, key: Bytes, iv: Bytes, f: Bytes, g: Bytes)
    requires Sound(s)
    ensures Enc(s, key, iv, f) <= Enc(s, key, iv, f + g)
    ensures Enc(s, key, iv, []) == []
  {
    assert s.enc(key, iv, []) == [];
  }

  // ----- whole streams, in any pieces -----

  function Flatten(chunks: seq<Bytes>): Bytes {
    if chunks == [] then [] else Flatten(chunks[..|chunks| - 1]) + chunks[|chunks| - 1]
  }

  // The stream for a message: IV, ciphertext, MAC.
  function Sealed(s: Suite, secret: Bytes, iv: Bytes, m: Bytes): Bytes {
    var front := iv + Enc(s, CipherKey(s, secret), iv, m) + s.encFinal(CipherKey(s, secret), iv, m);
    front + s.mac(MacKey(s, secret), front)
  }

  // What decryption makes of a stream; None is a refusal.
  function Opened(s: Suite, secret: Bytes, C: Bytes): Option<Bytes> {
    if |C| < s.ivLength + s.mdLength then None
    else if C[|C| - s.mdLength..] != s.mac(MacKey(s, secret), C[..|C| - s.mdLength]) then None
    else
      var r := s.decFinal(CipherKey(s, secret), C[..s.ivLength], C[s.ivLength..|C| - s.mdLength]);
      if r.None? then None
      else Some(Dec(s, CipherKey(s, secret), C[..s.ivLength], C[s.ivLength..|C| - s.mdLength]) + r.value)
  }

  // Pieces are joined in their order.
  lemma {:induction false} FlattenJoins(a: seq<Bytes>, b: seq<Bytes>, m: Bytes)
    ensures Flatten([]) == [] && Flatten([m]) == m && Flatten(a + b) == Flatten(a) + Flatten(b)
  {
    FlattenLast([], m);
    assert [] + [m] == [m] && [] + m == m;
    if b == [] {
      assert a + b == a && Flatten(a) + [] == Flatten(a);
    } else {
      hide Flatten;
      var n, u := |b| - 1, b[|b| - 1];
      FlattenJoins(a, b[..n], m);
      FlattenLast(a + b[..n], u);
      FlattenLast(b[..n], u);
      assert a + b == a + b[..n] + [u] && b == b[..n] + [u];
      assert Flatten(a) + (Flatten(b[..n]) + u) == Flatten(a) + Flatten(b[..n]) + u;
    }
  }

  lemma FlattenLast(a: seq<Bytes>, u: Bytes)
    ensures Flatten([]) == [] && Flatten(a + [u]) == Flatten(a) + u
  {
    assert (a + [u])[..|a|] == a;
  }

  // What has come out of the cipher once more than a MAC has followed the IV,
  // and before that.
  lemma ProducedFrom(s: Suite, secret: Bytes, iv: Bytes, body: Bytes, tail: Bytes)
    requires Sound(s) && |iv| == s.ivLength
    ensures |tail| == s.mdLength ==>
              Produced(s, secret, iv + body + tail) == s.dec(s.deriveKey(secret + [49]), iv, body)
    ensures |body| <= s.mdLength ==> Produced(s, secret, iv + body) == []
    ensures |body| < s.ivLength ==> Produced(s, secret, body) == []
  {
    var C := iv + body + tail;
    var E := iv + body;
    assert |tail| == s.mdLength ==> C[..s.ivLength] == iv && C[s.ivLength..|C| - |tail|] == body;
    assert E[..s.ivLength] == iv;
    assert |body| <= s.mdLength ==> Body(s, E) == [];
  }

  // A stream opens exactly if it is IV, body and the MAC of both, and the cipher
  // accepts the body.
  lemma OpenedFrom(s: Suite, secret: Bytes, iv: Bytes, body: Bytes, mac: Bytes)
    requires |iv| == s.ivLength && |mac| == s.mdLength
    ensures var key := s.deriveKey(secret + [49]);
            Opened(s, secret, iv + body + mac) ==
            if mac == s.mac(s.hash(secret + [50]), iv + body) && s.decFinal(key, iv, body).Some?
            then Some(s.dec(key, iv, body) + s.decFinal(key, iv, body).value) else None
    ensures |body| < s.ivLength + s.mdLength ==> Opened(s, secret, body) == None
  {
    var C := iv + body + mac;
    assert C[..s.ivLength] == iv && C[s.ivLength..|C| - s.mdLength] == body;
    assert C[..|C| - s.mdLength] == iv + body && C[|C| - s.mdLength..] == mac;
  }

  // However the message is cut, at least one update sends its sealed stream.
  method EncryptAll(s: Suite, secret: Bytes, salt: Bytes, chunks: seq<Bytes>) returns (stream: Bytes)
    requires Sound(s) && |salt| == s.ivLength && chunks != []
    ensures stream == Sealed(s, secret, salt, Flatten(chunks))
    ensures var key, m := s.deriveKey(secret + [49]), Flatten(chunks);
            var front := salt + s.enc(key, salt, m) + s.encFinal(key, salt, m);
            stream == front + s.mac(s.hash(secret + [50]), front)
  {
    hide Sound;
    var c := new EncryptCtx(s, secret, salt);
    stream := [];
    for i := 0 to |chunks|
      invariant c.Valid() && c.sent == stream && c.given == Flatten(chunks[..i]) && (i > 0 ==> c.state != 0)
      invariant c.iv == salt && c.ckey == CipherKey(s, secret) && c.hkey == MacKey(s, secret)
    {
      assert chunks[..i + 1][..i] == chunks[..i];
      var out := c.Update(chunks[i]);
      stream := stream + out;
    }
    assert chunks[..|chunks|] == chunks;
    var last := c.Final();
    stream := stream + last;
  }

  // However the stream is cut, decryption refuses it or returns what it opens to.
  method DecryptAll(s: Suite, secret: Bytes, chunks: seq<Bytes>) returns (ok: bool, message: Bytes)
    requires Sound(s)
    ensures ok <==> Opened(s, secret, Flatten(chunks)).Some?
    ensures ok ==> message == Opened(s, secret, Flatten(chunks)).value
  {
    hide Sound, Dec, CipherKey, MacKey, Produced, Opened, Authentic, Body;
    var c := new DecryptCtx(s, secret);
    message := [];
    ProducedNothing(s, secret);
    for i := 0 to |chunks|
      invariant c.Valid() && c.secret == secret && c.received == Flatten(chunks[..i])
      invariant fresh(c) && fresh(c.auxbuf) && fresh(c.ivbuf)
      invariant message == Produced(s, secret, c.received)
    {
      assert chunks[..i + 1][..i] == chunks[..i];
      var out := c.Update(chunks[i]);
      message := message + out;
    }
    assert chunks[..|chunks|] == chunks;
    var C := Flatten(chunks);
    var last;
    ok, last := c.Final();
    OpenedIs(s, secret, C);
    message := message + last;
  }

  lemma ProducedNothing(s: Suite, secret: Bytes)
    requires Sound(s)
    ensures Produced(s, secret, []) == []
  {
  }

  lemma OpenedIs(s: Suite, secret: Bytes, C: Bytes)
    requires Sound(s)
    ensures Opened(s, secret, C).Some? <==>
              Authentic(s, secret, C) && Finished(s, secret, C).Some?
    ensures Opened(s, secret, C).Some? ==>
              Opened(s, secret, C).value
                == Produced(s, secret, C) + Finished(s, secret, C).value
  {
    hide Sound;
    if |C| >= s.ivLength + s.mdLength {
      assert Body(s, C) == C[s.ivLength..|C| - s.mdLength];
    }
  }

  // A sealed stream opens to its message.
  lemma SealedOpens(s: Suite, secret: Bytes, iv: Bytes, m: Bytes)
    requires Sound(s) && Inverse(s) && |iv| == s.ivLength
    ensures Opened(s, secret, Sealed(s, secret, iv, m)) == Some(m)
  {
    hide Sound, CipherKey, MacKey;
    var k := CipherKey(s, secret);
    var body := s.enc(k, iv, m) + s.encFinal(k, iv, m);
    var front := iv + Enc(s, k, iv, m) + s.encFinal(k, iv, m);
    var C := Sealed(s, secret, iv, m);
    MacLength(s, MacKey(s, secret), front);
    assert front == iv + body;
    assert C[..|C| - s.mdLength] == front && C[|C| - s.mdLength..] == s.mac(MacKey(s, secret), front);
    assert C[..s.ivLength] == iv && C[s.ivLength..|C| - s.mdLength] == body;
  }

  // Encrypting in any pieces and decrypting in any pieces returns the message.
  method RoundTrip(s: Suite, secret: Bytes, salt: Bytes, chunks: seq<Bytes>, pieces: seq<Bytes>)
    returns (stream: Bytes, ok: bool, message: Bytes)
    requires Sound(s) && Inverse(s) && |salt| == s.ivLength && chunks != []
    requires Flatten(pieces) == Sealed(s, secret, salt, Flatten(chunks))
    ensures stream == Flatten(pieces) && ok && message == Flatten(chunks)
  {
    hide Sound, Inverse, Opened, Sealed;
    stream := EncryptAll(s, secret, salt, chunks);
    SealedOpens(s, secret, salt, Flatten(chunks));
    ok, message := DecryptAll(s, secret, pieces);
  }

  // The assumptions are consistent: the identity as cipher and a constant MAC.
  lemma SuiteExists() returns (s: Suite)
    ensures Sound(s) && Inverse(s)
  {
    var same: (Bytes, Bytes, Bytes) -> Bytes := (k, iv, f) => f;
    var none: (Bytes, Bytes, Bytes) -> Bytes := (k, iv, f) => [];
    var done: (Bytes, Bytes, Bytes) -> Option<Bytes> := (k, iv, f) => Some([]);
    s := Suite(1, 1, m => m, m => m, (k, m) => [0], same, none, same, done);
  }
}
