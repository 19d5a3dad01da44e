// osslutil.cpp: the EMSA-PSS encoder that builds its message in place, with
// the MGF1 of OpenSSL it calls, and the sizes its Java caller passes.
module PssEncoding {
  import opened Wrappers
  import opened PssSpecification

  const BUFFER_BYTES: nat := 2048
  const RSA_PSS_SALTLEN_MAX: int := -3

  // The encoded length and the leading bits to clear, from the arguments:
  // with no excess bits the first octet of the modulus length stays zero.
  function EmLen(rsaSize: int, msBits: nat): int {
    if msBits == 0 then rsaSize - 1 else rsaSize
  }

  function TopBits(msBits: nat): (r: nat)
    requires msBits <= 7
    ensures r <= 7
  {
    if msBits == 0 then 0 else 8 - msBits
  }

  // With the modulus length in whole octets rounded up, these are the emLen and
  // 8 * emLen - emBits of RFC 8017 for emBits = modBits - 1.
  lemma SizesOfModulus(modBits: nat)
    requires modBits >= 1
    ensures var emBits := modBits - 1;
            var msBits := emBits % 8;
            var emLen := EmLen((modBits + 7) / 8, msBits);
            emLen == (emBits + 7) / 8 && TopBits(msBits) == 8 * emLen - emBits
  {
    var q, r := (modBits - 1) / 8, (modBits - 1) % 8;
    assert modBits - 1 == 8 * q + r;
    Quotient(modBits + 7, q + 1, r);
    if r == 0 {
      Quotient(modBits - 1 + 7, q, 7);
    } else {
      Quotient(modBits - 1 + 7, q + 1, r - 1);
    }
  }

  lemma Quotient(n: nat, q: nat, r: nat)
    requires n == 8 * q + r && r < 8
    ensures n / 8 == q && n % 8 == r
  {
  }

  // The Java caller rounds down instead: its sizes are those of RFC 8017
  // exactly for moduli of whole octets.
  lemma CallerSizesFitWholeOctets(modBits: nat)
    requires modBits >= 1
    ensures EmLen(modBits / 8, (modBits - 1) % 8) == (modBits - 1 + 7) / 8 <==> modBits % 8 == 0
  {
    var q, r := modBits / 8, modBits % 8;
    assert modBits == 8 * q + r;
    if r == 0 {
      Quotient(modBits - 1, q - 1, 7);
      Quotient(modBits - 1 + 7, q, 6);
    } else {
      Quotient(modBits - 1, q, r - 1);
      if r == 1 {
        Quotient(modBits - 1 + 7, q, 7);
      } else {
        Quotient(modBits - 1 + 7, q + 1, r - 2);
      }
    }
  }

  // PKCS1_MGF1 with the mask at em[at..at + len].
  method Pkcs1Mgf1(em: array<octet>, at: nat, len: nat, seed: seq<octet>, d: Digest)
    requires d.Valid() && at + len <= em.Length && len <= 0x1_0000_0000
    modifies em
    ensures em[at..at + len] == Mgf1(d, seed, len)
    ensures em[..at] == old(em[..at]) && em[at + len..] == old(em[at + len..])
  {
    hide MaskBlocks, Counter;
    ghost var before, behind := em[..at], em[at + len..];
    var outlen, i := 0, 0;
    NoMaskBlocks(d, seed);
    while outlen < len
      invariant outlen <= len && i >= 0
      invariant outlen < len ==> outlen == |MaskBlocks(d, seed, i)|
      invariant |MaskBlocks(d, seed, i)| >= outlen
      invariant em[..at + outlen] == before + MaskBlocks(d, seed, i)[..outlen]
      invariant em[at + len..] == behind
      decreases len - outlen
    {
      var md := d.hash(seed + Counter(i));
      MaskBlocksStep(d, seed, i);
      ghost var t := MaskBlocks(d, seed, i);
      var n := StoreBlock(em, at + outlen, at + len, md);
      assert (t + md)[..outlen + n] == t + md[..n];
      outlen := outlen + n;
      i := i + 1;
    }
    Mgf1FromBlocks(d, seed, i, len);
    assert em[at..at + len] == em[..at + len][at..];
    assert em[..at] == em[..at + len][..at];
  }

  // Store a hash block at em[at..], or as much of it as fits before `end`.
  method StoreBlock(em: array<octet>, at: nat, end: nat, md: seq<octet>) returns (n: nat)
    requires at <= end <= em.Length
    modifies em
    ensures n == if at + |md| <= end then |md| else end - at
    ensures em[..at + n] == old(em[..at]) + md[..n]
    ensures em[end..] == old(em[end..])
  {
    n := if at + |md| <= end then |md| else end - at;
    ghost var before := em[..];
    CopyOctets(em, at, md[..n]);
    ghost var after := em[..];
    JoinSlices(after, 0, at, at + n);
    assert after[..at] == before[..at] && after[at..at + n] == md[..n];
    assert after[at + n..] == before[at + n..];
    assert after[end..] == after[at + n..][end - at - n..] == before[at + n..][end - at - n..] == before[end..];
  }

  lemma NoMaskBlocks(d: Digest, seed: seq<octet>)
    ensures MaskBlocks(d, seed, 0) == []
  {
  }

  lemma MaskBlocksStep(d: Digest, seed: seq<octet>, n: nat)
    ensures MaskBlocks(d, seed, n + 1) == MaskBlocks(d, seed, n) + d.hash(seed + Counter(n))
  {
  }

  // memcpy of a value into the buffer.
  method CopyOctets(buf: array<octet>, at: nat, octets: seq<octet>)
    requires at + |octets| <= buf.Length
    modifies buf
    ensures buf[at..at + |octets|] == octets
    ensures buf[..at] == old(buf[..at]) && buf[at + |octets|..] == old(buf[at + |octets|..])
  {
    forall k | 0 <= k < |octets| {
      buf[at + k] := octets[k];
    }
  }

  // XOR 0x01 and the salt into the mask: the zero padding before them needs no
  // change, and the pointer ends where H starts.
  method XorSeparatorAndSalt(em: array<octet>, start: nat, salt: seq<octet>) returns (p: nat)
    requires start + 1 + |salt| <= em.Length
    modifies em
    ensures p == start + 1 + |salt|
    ensures em[start..p] == Xor([0x01] + salt, old(em[start..start + 1 + |salt|]))
    ensures em[..start] == old(em[..start]) && em[p..] == old(em[start + 1 + |salt|..])
  {
    ghost var em0 := em[..];
    p := start;
    em[p] := XorOctet(em[p], 0x01);
    p := p + 1;
    XorCommutes(em0[start], 0x01);
    for i := 0 to |salt|
      invariant p == start + 1 + i
      invariant em[start] == XorOctet(0x01, em0[start])
      invariant forall k :: 0 <= k < i ==> em[start + 1 + k] == XorOctet(salt[k], em0[start + 1 + k])
      invariant forall k :: 0 <= k < em.Length && !(start <= k < p) ==> em[k] == em0[k]
    {
      XorCommutes(em[p], salt[i]);
      em[p] := XorOctet(em[p], salt[i]);
      p := p + 1;
    }
  }

  lemma XorCommutes(a: octet, b: octet)
    ensures XorOctet(a, b) == XorOctet(b, a)
  {
  }

  lemma XorZero(a: octet)
    ensures XorOctet(0, a) == a
  {
  }

  // XORing only the tail of a block whose head is zero.
  lemma XorOfPadded(psLen: nat, tail: seq<octet>, mask: seq<octet>)
    requires |mask| == psLen + |tail|
    ensures Xor(Zeros(psLen) + tail, mask) == mask[..psLen] + Xor(tail, mask[psLen..])
  {
    hide XorOctet;
    forall i | 0 <= i < |mask|
      ensures Xor(Zeros(psLen) + tail, mask)[i] == (mask[..psLen] + Xor(tail, mask[psLen..]))[i]
    {
      XorZero(mask[i]);
    }
  }

  lemma ClearTopOfNone(s: seq<octet>)
    ensures ClearTop(s, 0) == s
  {
    if s != [] {
      assert s[0] & (0xFF as octet) == s[0];
    }
  }

  lemma SaltedHashLength(d: Digest, mHash: seq<octet>, salt: seq<octet>)
    requires d.Valid()
    ensures |SaltedHash(d, mHash, salt)| == d.size
  {
  }

  // The data block from `em` up to H: its place is filled with the mask, into
  // which only separator and salt have to be XORed.
  method MaskDataBlock(buf: array<octet>, em: nat, psLen: nat, h: seq<octet>, salt: seq<octet>, d: Digest)
    requires d.Valid() && em + psLen + 1 + |salt| <= buf.Length && psLen + 1 + |salt| <= 0x1_0000_0000
    modifies buf
    ensures var dbLen := psLen + 1 + |salt|;
            && |Mgf1(d, h, dbLen)| == dbLen
            && buf[em..em + dbLen] == Xor(Zeros(psLen) + [0x01] + salt, Mgf1(d, h, dbLen))
            && buf[em + dbLen..] == old(buf[em + dbLen..])
  {
    hide Xor, XorOctet, Mgf1, Zeros, Digest.Valid;
    var dbLen := psLen + 1 + |salt|;
    Pkcs1Mgf1(buf, em, dbLen, h, d);
    ghost var dbMask := Mgf1(d, h, dbLen);
    assert buf[em..em + dbLen] == dbMask;
    assert |dbMask| == dbLen;
    XorTail(buf, em, psLen, salt);
    assert buf[em..em + dbLen] == dbMask[..psLen] + Xor([0x01] + salt, dbMask[psLen..]);
    XorOfPadded(psLen, [0x01] + salt, dbMask);
    assert Zeros(psLen) + [0x01] + salt == Zeros(psLen) + ([0x01] + salt);
  }

  // The XOR pass over the mask that starts at `em`, skipping the padding.
  method XorTail(buf: array<octet>, em: nat, psLen: nat, salt: seq<octet>)
    requires em + psLen + 1 + |salt| <= buf.Length
    modifies buf
    ensures var dbLen := psLen + 1 + |salt|;
            var mask := old(buf[em..em + dbLen]);
            && buf[em..em + dbLen] == mask[..psLen] + Xor([0x01] + salt, mask[psLen..])
            && buf[em + dbLen..] == old(buf[em + dbLen..])
  {
    hide Xor, XorOctet;
    ghost var dbLen := psLen + 1 + |salt|;
    ghost var before := buf[..];
    ghost var mask := before[em..em + dbLen];
    assert before[em + psLen..em + dbLen] == mask[psLen..];
    var p := XorSeparatorAndSalt(buf, em + psLen, salt);
    ghost var after := buf[..];
    assert after[..em + psLen] == before[..em + psLen];
    assert after[em + psLen..em + dbLen] == Xor([0x01] + salt, mask[psLen..]);
    JoinSlices(before, em, em + psLen, em + dbLen);
    JoinSlices(after, em, em + psLen, em + dbLen);
    assert before[em..em + psLen] == mask[..psLen];
  }

  lemma JoinSlices(s: seq<octet>, i: nat, j: nat, k: nat)
    requires i <= j <= k <= |s|
    ensures s[i..k] == s[i..j] + s[j..k] && s[i..j] == s[..j][i..]
  {
  }

  // Java_de_blinkt_openvpn_core_NativeUtils_rsapss, with the random salt as an
  // argument; None where the source goes to err.
  method RsaPss(d: Digest, msBits: nat, rsaSize: int, from: seq<octet>, salt: seq<octet>) returns (result: Option<seq<octet>>)
    requires d.Valid() && msBits <= 7 && rsaSize <= BUFFER_BYTES
    requires |from| >= d.size && |salt| == d.size
    ensures result == Encode(d, Mgf1Of(d), from[..d.size], salt, EmLen(rsaSize, msBits), TopBits(msBits))
    ensures result.Some? ==>
              var em := result.value;
              && |em| == EmLen(rsaSize, msBits) && em[|em| - 1] == 0xbc
              && em[|em| - d.size - 1..|em| - 1] == d.hash([0, 0, 0, 0, 0, 0, 0, 0] + from[..d.size] + salt)
              && Number(em[0]) < Pow2(8 - TopBits(msBits))
  {
    hide SaltedHash, Xor, Mgf1, Zeros, ClearTop, Pow2, Number;
    var hLen := d.size;
    var sLen: int := hLen;
    var buf := new octet[BUFFER_BYTES](_ => 0);
    var em: nat := 0;
    var emLen := rsaSize;
    if msBits == 0 {
      buf[em] := 0;
      em := em + 1;
      emLen := emLen - 1;
    }
    if emLen < hLen + 2 {
      return None;
    }
    if sLen == RSA_PSS_SALTLEN_MAX {
      sLen := emLen - hLen - 2;
    } else if sLen > emLen - hLen - 2 {
      return None;
    }
    var h := SaltedHash(d, from[..hLen], salt);
    SaltedHashLength(d, from[..hLen], salt);
    Build(buf, em, emLen, h, salt, msBits, d);
    result := Some(buf[em..em + emLen]);
    EncodedEnds(d, from[..d.size], salt, emLen, TopBits(msBits));
  }

  // What an encoded message starts and ends with.
  lemma EncodedEnds(d: Digest, mHash: seq<octet>, salt: seq<octet>, emLen: nat, topBits: nat)
    requires d.Valid() && topBits <= 7 && d.size + |salt| + 2 <= emLen <= 0x1_0000_0000
    ensures var em := Encode(d, Mgf1Of(d), mHash, salt, emLen, topBits);
            && em.Some? && |em.value| == emLen && em.value[emLen - 1] == 0xbc
            && em.value[emLen - d.size - 1..emLen - 1] == d.hash([0, 0, 0, 0, 0, 0, 0, 0] + mHash + salt)
            && Number(em.value[0]) < Pow2(8 - topBits)
  {
    hide Encode, Pow2, Number, XorOctet;
    CounterValue(0 / d.size);
    EncodedOctets(d, mHash, salt, emLen, topBits, 0, Counter(0 / d.size));
  }

  // The encoded message in place at `em`: H, the masked data block before it,
  // and the trailer.
  method Build(buf: array<octet>, em: nat, emLen: nat, h: seq<octet>, salt: seq<octet>, msBits: nat, d: Digest)
    requires d.Valid() && msBits <= 7 && emLen >= |h| + |salt| + 2 && em + emLen <= buf.Length <= BUFFER_BYTES
    modifies buf
    ensures var dbLen := emLen - |h| - 1;
            var db := Zeros(emLen - |salt| - |h| - 2) + [0x01] + salt;
            && |Mgf1(d, h, dbLen)| == dbLen
            && buf[em..em + emLen] == ClearTop(Xor(db, Mgf1(d, h, dbLen)), TopBits(msBits)) + h + [0xbc]
  {
    hide Xor, Mgf1, Zeros, ClearTop, TopBits;
    var maskedDBLen := emLen - |h| - 1;
    CopyOctets(buf, em + maskedDBLen, h);
    ghost var behind := buf[em + maskedDBLen..];
    assert behind[..|h|] == buf[em + maskedDBLen..em + maskedDBLen + |h|];
    MaskDataBlock(buf, em, emLen - |salt| - |h| - 2, h, salt, d);
    assert buf[em + maskedDBLen..em + maskedDBLen + |h|] == behind[..|h|];
    Finish(buf, em, maskedDBLen, h, msBits);
  }

  // Zero the bits above the modulus and append the trailer; H stays as it is.
  method Finish(buf: array<octet>, em: nat, maskedDBLen: nat, h: seq<octet>, msBits: nat)
    requires msBits <= 7 && 1 <= maskedDBLen && em + maskedDBLen + |h| < buf.Length
    requires buf[em + maskedDBLen..em + maskedDBLen + |h|] == h
    modifies buf
    ensures buf[em..em + maskedDBLen + |h| + 1] ==
            ClearTop(old(buf[em..em + maskedDBLen]), TopBits(msBits)) + h + [0xbc]
    ensures Number(buf[em]) == Number(old(buf[em])) % Pow2(8 - TopBits(msBits))
  {
    hide KeepLow, ClearTop, TopBits, Pow2, Number;
    ghost var masked := buf[em..em + maskedDBLen];
    ghost var end := em + maskedDBLen + |h|;
    ghost var before := buf[em..end];
    assert before == masked + h;
    ClearTopInPlace(masked, msBits);
    if msBits != 0 {
      buf[em] := KeepLow(buf[em], 8 - msBits);
      assert buf[em..end] == [KeepLow(masked[0], 8 - msBits)] + before[1..];
      assert before[1..] == masked[1..] + h;
    }
    assert buf[em..end] == ClearTop(masked, TopBits(msBits)) + h;
    ghost var almost := buf[em..end];
    buf[em + maskedDBLen + |h|] := 0xbc;
    assert buf[em..end + 1] == almost + [0xbc];
    ClearTopAt(masked, TopBits(msBits), 0);
    KeepLowValue(masked[0], TopBits(msBits));
    assert buf[em] == buf[em..end + 1][0] == ClearTop(masked, TopBits(msBits))[0];
  }

  lemma ClearTopInPlace(s: seq<octet>, msBits: nat)
    requires msBits <= 7 && s != []
    ensures ClearTop(s, TopBits(msBits)) == if msBits == 0 then s else [KeepLow(s[0], 8 - msBits)] + s[1..]
  {
    if msBits == 0 {
      ClearTopOfNone(s);
    }
  }

  // What the encoder returns is what the verifier accepts: the encoder fails
  // exactly when the message is too short, and otherwise the encoded message
  // has the right length, its leading bits are clear, and the verifier accepts
  // it and recovers the salt.
  lemma EncodedMessageVerifies(d: Digest, mHash: seq<octet>, salt: seq<octet>, msBits: nat, rsaSize: int)
    requires d.Valid() && msBits <= 7
    ensures var emLen, topBits := EmLen(rsaSize, msBits), TopBits(msBits);
            var r := Encode(d, Mgf1Of(d), mHash, salt, emLen, topBits);
            && (r.Some? <==> emLen >= d.size + |salt| + 2)
            && (r.Some? ==> |r.value| == emLen && TopIsClear(r.value, topBits))
            && (r.Some? ==> Verify(d, Mgf1Of(d), mHash, r.value, |salt|, topBits) == Some(salt))
  {
    hide SaltedHash, Xor, KeepLow, Mgf1, Verify, ClearTop, Pow2;
    var emLen, topBits := EmLen(rsaSize, msBits), TopBits(msBits);
    Mgf1GeneratesMasks(d);
    SaltedHashLength(d, mHash, salt);
    if emLen >= d.size + |salt| + 2 {
      var h := SaltedHash(d, mHash, salt);
      var db := Zeros(emLen - |salt| - d.size - 2) + [0x01] + salt;
      var dbMask := Mgf1Of(d)(h, emLen - d.size - 1);
      var em := Encode(d, Mgf1Of(d), mHash, salt, emLen, topBits).value;
      ClearTopAt(Xor(db, dbMask), topBits, 0);
      MaskTwice(Xor(db, dbMask)[0], 0, topBits);
      SmallIffKept(KeepLow(Xor(db, dbMask)[0], topBits), topBits);
      assert em[0] == ClearTop(Xor(db, dbMask), topBits)[0];
      VerifyAcceptsExactlyEncodings(d, Mgf1Of(d), mHash, em, salt, topBits);
    }
  }

  // Pad a digest and verify the padding, as signer and verifier of a signature
  // do on either side of the RSA operation.
  method PadThenVerify(d: Digest, msBits: nat, rsaSize: int, from: seq<octet>, salt: seq<octet>)
    returns (padded: Option<seq<octet>>, recovered: Option<seq<octet>>)
    requires d.Valid() && msBits <= 7 && rsaSize <= BUFFER_BYTES
    requires |from| >= d.size && |salt| == d.size
    ensures padded.Some? <==> EmLen(rsaSize, msBits) >= 2 * d.size + 2
    ensures padded.Some? ==> |padded.value| == EmLen(rsaSize, msBits) && recovered == Some(salt)
    ensures padded.None? ==> recovered == None
  {
    hide Encode, Verify;
    padded := RsaPss(d, msBits, rsaSize, from, salt);
    EncodedMessageVerifies(d, from[..d.size], salt, msBits, rsaSize);
    recovered := None;
    if padded.Some? {
      recovered := Verify(d, Mgf1Of(d), from[..d.size], padded.value, d.size, TopBits(msBits));
    }
  }
}
