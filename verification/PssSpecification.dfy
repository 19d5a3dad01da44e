// EMSA-PSS of RFC 8017: encoding (section 9.1.1), verification (section
// 9.1.2) and the mask generation function MGF1 (appendix B.2.1).
module PssSpecification {
  import opened Wrappers

  type octet = bv8

  // A hash function with outputs of `size` octets.
  datatype Digest = Digest(size: nat, hash: seq<octet> -> seq<octet>) {
    ghost predicate Valid() {
      size >= 1 && forall m :: |hash(m)| == size
    }
  }

  // A mask generation function: a seed and the length of the mask.
  type MaskGenerator = (seq<octet>, nat) -> seq<octet>

  ghost predicate GeneratesMasks(mgf: MaskGenerator) {
    forall seed, n :: |mgf(seed, n)| == n
  }

  function Zeros(n: nat): (r: seq<octet>)
    ensures |r| == n && forall i :: 0 <= i < n ==> r[i] == 0
  {
    seq(n, _ => 0)
  }

  // An octet as a number.
  function Number(x: octet): (n: nat)
    ensures n < 256
  {
    x as nat
  }

  function XorOctet(a: octet, b: octet): octet {
    a ^ b
  }

  function Xor(a: seq<octet>, b: seq<octet>): (r: seq<octet>)
    requires |a| == |b|
    ensures |r| == |a| && forall i :: 0 <= i < |a| ==> r[i] == XorOctet(a[i], b[i])
  {
    seq(|a|, i requires 0 <= i < |a| => XorOctet(a[i], b[i]))
  }

  // The low 8 - bits bits of an octet.
  function LowMask(bits: nat): octet
    requires bits <= 7
  {
    0xFF >> bits
  }

  function KeepLow(x: octet, bits: nat): octet
    requires bits <= 7
  {
    x & LowMask(bits)
  }

  // Set the leftmost `bits` bits of the first octet to zero.
  function ClearTop(s: seq<octet>, bits: nat): (r: seq<octet>)
    requires bits <= 7
    ensures |r| == |s|
  {
    if s == [] then [] else [KeepLow(s[0], bits)] + s[1..]
  }

  function Pow2(n: nat): (r: nat)
    ensures r >= 1
  {
    if n == 0 then 1 else 2 * Pow2(n - 1)
  }

  // The leading `bits` bits are zero: as a number, the first octet fits into
  // the other bits.
  predicate TopIsClear(s: seq<octet>, bits: nat)
    requires bits <= 7
  {
    s == [] || Number(s[0]) < Pow2(8 - bits)
  }

  lemma Powers()
    ensures Pow2(1) == 2 && Pow2(2) == 4 && Pow2(3) == 8 && Pow2(4) == 16
    ensures Pow2(5) == 32 && Pow2(6) == 64 && Pow2(7) == 128 && Pow2(8) == 256
  {
    assert Pow2(4) == 16 && Pow2(6) == 64;
  }

  lemma Low8(x: octet)
    ensures Number(x & 0xFF) == Number(x) % 256
  {
  }

  lemma Low7(x: octet)
    ensures Number(x & 0x7F) == Number(x) % 128
  {
  }

  lemma Low6(x: octet)
    ensures Number(x & 0x3F) == Number(x) % 64
  {
  }

  lemma Low5(x: octet)
    ensures Number(x & 0x1F) == Number(x) % 32
  {
  }

  lemma Low4(x: octet)
    ensures Number(x & 0x0F) == Number(x) % 16
  {
  }

  lemma Low3(x: octet)
    ensures Number(x & 0x07) == Number(x) % 8
  {
  }

  lemma Low2(x: octet)
    ensures Number(x & 0x03) == Number(x) % 4
  {
  }

  lemma Low1(x: octet)
    ensures Number(x & 0x01) == Number(x) % 2
  {
  }

  // Keeping the low bits is the remainder by a power of two.
  lemma KeepLowValue(x: octet, bits: nat)
    requires bits <= 7
    ensures Number(KeepLow(x, bits)) == Number(x) % Pow2(8 - bits)
  {
    hide Pow2, Number;
    Powers();
    if bits == 0 {
      assert LowMask(0) == 0xFF;
      Low8(x);
    } else if bits == 1 {
      assert LowMask(1) == 0x7F;
      Low7(x);
    } else if bits == 2 {
      assert LowMask(2) == 0x3F;
      Low6(x);
    } else if bits == 3 {
      assert LowMask(3) == 0x1F;
      Low5(x);
    } else if bits == 4 {
      assert LowMask(4) == 0x0F;
      Low4(x);
    } else if bits == 5 {
      assert LowMask(5) == 0x07;
      Low3(x);
    } else if bits == 6 {
      assert LowMask(6) == 0x03;
      Low2(x);
    } else {
      assert LowMask(7) == 0x01;
      Low1(x);
    }
  }

  lemma SameNumber(x: octet, y: octet)
    requires Number(x) == Number(y)
    ensures x == y
  {
  }

  // An octet is small exactly when keeping its low bits does not change it.
  lemma SmallIffKept(x: octet, bits: nat)
    requires bits <= 7
    ensures Number(x) < Pow2(8 - bits) <==> KeepLow(x, bits) == x
  {
    hide KeepLow, Pow2, Number;
    KeepLowValue(x, bits);
    var n, m := Number(x), Pow2(8 - bits);
    RemainderOfSmall(n, m);
    if n < m {
      SameNumber(KeepLow(x, bits), x);
    }
  }

  lemma RemainderOfSmall(n: nat, m: nat)
    requires m >= 1
    ensures n < m <==> n % m == n
  {
  }

  // H = Hash(eight zero octets || mHash || salt).
  function SaltedHash(d: Digest, mHash: seq<octet>, salt: seq<octet>): seq<octet> {
    d.hash(Zeros(8) + mHash + salt)
  }

  // EMSA-PSS-ENCODE for an encoded message of emLen octets of which the
  // leftmost `topBits` bits stay zero.
  function Encode(d: Digest, mgf: MaskGenerator, mHash: seq<octet>, salt: seq<octet>,
                  emLen: int, topBits: nat): Option<seq<octet>>
    requires topBits <= 7
  {
    if emLen < d.size + |salt| + 2 then None
    else
      var h := SaltedHash(d, mHash, salt);
      var db := Zeros(emLen - |salt| - d.size - 2) + [0x01] + salt;
      var dbMask := mgf(h, emLen - d.size - 1);
      if |dbMask| != |db| then None else Some(ClearTop(Xor(db, dbMask), topBits) + h + [0xbc])
  }

  // EMSA-PSS-VERIFY for a salt of sLen octets: the salt that was recovered, or
  // None for "inconsistent".
  function Verify(d: Digest, mgf: MaskGenerator, mHash: seq<octet>, em: seq<octet>, sLen: nat, topBits: nat): Option<seq<octet>>
    requires topBits <= 7
  {
    var emLen := |em|;
    if emLen < d.size + sLen + 2 then None
    else if em[emLen - 1] != 0xbc then None
    else
      var dbLen := emLen - d.size - 1;
      var maskedDb := em[..dbLen];
      var h := em[dbLen..dbLen + d.size];
      var dbMask := mgf(h, dbLen);
      if !TopIsClear(maskedDb, topBits) || |dbMask| != dbLen then None
      else
        var db := ClearTop(Xor(maskedDb, dbMask), topBits);
        var psLen := emLen - d.size - sLen - 2;
        if db[..psLen] != Zeros(psLen) || db[psLen] != 0x01 then None
        else
          var salt := db[psLen + 1..];
          if SaltedHash(d, mHash, salt) != h then None else Some(salt)
  }

  lemma MaskTwiceBits(x: octet, k: octet, m: octet)
    ensures x & m == x ==> (((x ^ k) & m) ^ k) & m == x
    ensures (x & m) & m == x & m
    ensures (x ^ k) ^ k == x
  {
  }

  lemma MaskTwice(x: octet, k: octet, bits: nat)
    requires bits <= 7
    ensures KeepLow(x, bits) == x ==> KeepLow(XorOctet(KeepLow(XorOctet(x, k), bits), k), bits) == x
    ensures KeepLow(KeepLow(x, bits), bits) == KeepLow(x, bits)
    ensures XorOctet(XorOctet(x, k), k) == x
  {
    MaskTwiceBits(x, k, LowMask(bits));
  }

  // Clearing the top bits never destroys the separator or a zero.
  lemma SeparatorSurvives(bits: nat)
    requires bits <= 7
    ensures KeepLow(0x01, bits) == 0x01 && KeepLow(0, bits) == 0
  {
    assert bits == 0 || bits == 1 || bits == 2 || bits == 3 || bits == 4 || bits == 5 || bits == 6 || bits == 7;
  }

  lemma ClearTopAt(s: seq<octet>, bits: nat, i: nat)
    requires bits <= 7 && i < |s|
    ensures ClearTop(s, bits)[i] == if i == 0 then KeepLow(s[0], bits) else s[i]
  {
    hide KeepLow;
  }

  lemma UnmaskOctet(db: seq<octet>, dbMask: seq<octet>, bits: nat, i: nat)
    requires bits <= 7 && |db| == |dbMask| && TopIsClear(db, bits) && i < |db|
    ensures var masked := ClearTop(Xor(db, dbMask), bits);
            && masked[i] == (if i == 0 then KeepLow(XorOctet(db[0], dbMask[0]), bits) else XorOctet(db[i], dbMask[i]))
            && ClearTop(Xor(masked, dbMask), bits)[i] == db[i]
  {
    hide KeepLow, XorOctet, ClearTop, Pow2;
    SmallIffKept(db[0], bits);
    var masked := ClearTop(Xor(db, dbMask), bits);
    ClearTopAt(Xor(db, dbMask), bits, i);
    ClearTopAt(Xor(masked, dbMask), bits, i);
    MaskTwice(db[i], dbMask[i], bits);
  }

  // A masked block is unmasked by masking it again, when its top is clear.
  lemma UnmaskMasked(db: seq<octet>, dbMask: seq<octet>, bits: nat)
    requires bits <= 7 && |db| == |dbMask| && TopIsClear(db, bits)
    ensures var masked := ClearTop(Xor(db, dbMask), bits);
            TopIsClear(masked, bits) && ClearTop(Xor(masked, dbMask), bits) == db
  {
    hide KeepLow, XorOctet, ClearTop, Xor, Pow2;
    var again := ClearTop(Xor(ClearTop(Xor(db, dbMask), bits), dbMask), bits);
    forall i | 0 <= i < |db|
      ensures again[i] == db[i]
    {
      UnmaskOctet(db, dbMask, bits, i);
    }
    if db != [] {
      UnmaskOctet(db, dbMask, bits, 0);
      MaskTwice(XorOctet(db[0], dbMask[0]), 0, bits);
      SmallIffKept(KeepLow(XorOctet(db[0], dbMask[0]), bits), bits);
    }
  }

  // The verifier accepts exactly the encodings, and recovers the salt of each:
  // a message is accepted with some salt if and only if it is the encoding of
  // the message hash with that salt.
  lemma VerifyAcceptsExactlyEncodings(d: Digest, mgf: MaskGenerator, mHash: seq<octet>,
      em: seq<octet>, salt: seq<octet>, topBits: nat)
    requires d.Valid() && GeneratesMasks(mgf) && topBits <= 7
    ensures Verify(d, mgf, mHash, em, |salt|, topBits) == Some(salt) <==>
            Encode(d, mgf, mHash, salt, |em|, topBits) == Some(em)
  {
    if Encode(d, mgf, mHash, salt, |em|, topBits) == Some(em) {
      EncodedIsAccepted(d, mgf, mHash, em, salt, topBits);
    }
    if Verify(d, mgf, mHash, em, |salt|, topBits) == Some(salt) {
      AcceptedIsEncoded(d, mgf, mHash, em, salt, topBits);
    }
  }

  lemma BlockTopIsClear(psLen: nat, salt: seq<octet>, topBits: nat)
    requires topBits <= 7
    ensures TopIsClear(Zeros(psLen) + [0x01] + salt, topBits)
  {
    hide Pow2, KeepLow;
    SeparatorSurvives(topBits);
    SmallIffKept(0, topBits);
    SmallIffKept(0x01, topBits);
  }

  lemma EncodedIsAccepted(d: Digest, mgf: MaskGenerator, mHash: seq<octet>,
      em: seq<octet>, salt: seq<octet>, topBits: nat)
    requires d.Valid() && GeneratesMasks(mgf) && topBits <= 7
    requires Encode(d, mgf, mHash, salt, |em|, topBits) == Some(em)
    ensures Verify(d, mgf, mHash, em, |salt|, topBits) == Some(salt)
  {
    hide KeepLow, XorOctet, ClearTop, Xor, TopIsClear, SaltedHash;
    var h := SaltedHash(d, mHash, salt);
    var psLen := |em| - d.size - |salt| - 2;
    var dbLen := |em| - d.size - 1;
    var db := Zeros(psLen) + [0x01] + salt;
    var masked := ClearTop(Xor(db, mgf(h, dbLen)), topBits);
    BlockTopIsClear(psLen, salt, topBits);
    UnmaskMasked(db, mgf(h, dbLen), topBits);
    assert em == masked + h + [0xbc];
    assert em[..dbLen] == masked && em[dbLen..dbLen + d.size] == h;
    assert db[..psLen] == Zeros(psLen) && db[psLen + 1..] == salt;
  }

  lemma AcceptedIsEncoded(d: Digest, mgf: MaskGenerator, mHash: seq<octet>,
      em: seq<octet>, salt: seq<octet>, topBits: nat)
    requires d.Valid() && GeneratesMasks(mgf) && topBits <= 7
    requires Verify(d, mgf, mHash, em, |salt|, topBits) == Some(salt)
    ensures Encode(d, mgf, mHash, salt, |em|, topBits) == Some(em)
  {
    hide KeepLow, XorOctet, ClearTop, Xor, TopIsClear, SaltedHash;
    var psLen := |em| - d.size - |salt| - 2;
    var dbLen := |em| - d.size - 1;
    var masked, h := em[..dbLen], em[dbLen..dbLen + d.size];
    var dbMask := mgf(h, dbLen);
    var db := ClearTop(Xor(masked, dbMask), topBits);
    assert db == db[..psLen] + [db[psLen]] + db[psLen + 1..] == Zeros(psLen) + [0x01] + salt;
    UnmaskMasked(masked, dbMask, topBits);
    assert em == masked + h + [0xbc];
  }

  // Whatever is accepted holds, before its trailer, the hash of eight zero
  // octets, the message hash and the salt that is recovered.
  lemma AcceptedHash(d: Digest, mgf: MaskGenerator, mHash: seq<octet>, em: seq<octet>, sLen: nat, topBits: nat)
    requires d.Valid() && topBits <= 7
    requires Verify(d, mgf, mHash, em, sLen, topBits).Some?
    ensures var salt := Verify(d, mgf, mHash, em, sLen, topBits).value;
            && |salt| == sLen && |em| >= d.size + sLen + 2
            && em[|em| - d.size - 1..|em| - 1] == d.hash([0, 0, 0, 0, 0, 0, 0, 0] + mHash + salt)
            && em[|em| - 1] == 0xbc
  {
    assert Zeros(8) == [0, 0, 0, 0, 0, 0, 0, 0];
  }

  // An encoded message that is accepted for two message hashes is a collision
  // of the hash function.
  lemma AcceptedTwiceIsCollision(d: Digest, mgf: MaskGenerator, m1: seq<octet>, m2: seq<octet>,
      em: seq<octet>, sLen: nat, topBits: nat) returns (a: seq<octet>, b: seq<octet>)
    requires d.Valid() && topBits <= 7 && m1 != m2
    requires Verify(d, mgf, m1, em, sLen, topBits).Some? && Verify(d, mgf, m2, em, sLen, topBits).Some?
    ensures a != b && d.hash(a) == d.hash(b)
  {
    hide Verify;
    var zeros: seq<octet> := [0, 0, 0, 0, 0, 0, 0, 0];
    var s1, s2 := Verify(d, mgf, m1, em, sLen, topBits).value, Verify(d, mgf, m2, em, sLen, topBits).value;
    AcceptedHash(d, mgf, m1, em, sLen, topBits);
    AcceptedHash(d, mgf, m2, em, sLen, topBits);
    a, b := zeros + m1 + s1, zeros + m2 + s2;
    Middle(zeros, m1, s1);
    Middle(zeros, m2, s2);
  }

  lemma Middle(a: seq<octet>, b: seq<octet>, c: seq<octet>)
    ensures (a + b + c)[|a|..|a + b + c| - |c|] == b
  {
  }

  lemma OneMore(x: octet)
    requires Number(x) < 255
    ensures Number(x + 1) == Number(x) + 1
  {
  }

  // The octet with a given value.
  function Octet(n: nat): (x: octet)
    requires n < 256
    ensures Number(x) == n
  {
    if n == 0 then 0
    else
      OneMore(Octet(n - 1));
      Octet(n - 1) + 1
  }

  // Four octets, most significant first.
  function Counter(i: nat): (r: seq<octet>)
    ensures |r| == 4
  {
    [Octet(i / 0x100_0000 % 256), Octet(i / 0x1_0000 % 256), Octet(i / 256 % 256), Octet(i % 256)]
  }

  // Four octets as a number.
  function BigEndian(c: seq<octet>): nat
    requires |c| == 4
  {
    Number(c[0]) * 0x100_0000 + Number(c[1]) * 0x1_0000 + Number(c[2]) * 0x100 + Number(c[3])
  }

  lemma CounterValue(i: nat)
    requires i < 0x1_0000_0000
    ensures BigEndian(Counter(i)) == i
  {
    hide Number, Octet;
    CounterDigits(i);
  }

  lemma CounterDigits(i: nat)
    requires i < 0x1_0000_0000
    ensures i == i / 0x100_0000 % 256 * 0x100_0000 + i / 0x1_0000 % 256 * 0x1_0000 + i / 256 % 256 * 0x100 + i % 256
  {
    var i1, i2, i3 := i / 256, i / 0x1_0000, i / 0x100_0000;
    assert i1 / 256 == i2 && i2 / 256 == i3;
    assert i == 256 * i1 + i % 256 && i1 == 256 * i2 + i1 % 256 && i2 == 256 * i3 + i2 % 256;
  }

  // Four octets are determined by their value.
  lemma BigEndianInjective(a: seq<octet>, b: seq<octet>)
    requires |a| == 4 && |b| == 4 && BigEndian(a) == BigEndian(b)
    ensures a == b
  {
    hide Number;
    SameDigits(Number(a[0]), Number(a[1]), Number(a[2]), Number(a[3]),
               Number(b[0]), Number(b[1]), Number(b[2]), Number(b[3]));
    forall k | 0 <= k < 4
      ensures a[k] == b[k]
    {
      SameNumber(a[k], b[k]);
    }
  }

  lemma SameDigits(a0: nat, a1: nat, a2: nat, a3: nat, b0: nat, b1: nat, b2: nat, b3: nat)
    requires a1 < 256 && a2 < 256 && a3 < 256 && b1 < 256 && b2 < 256 && b3 < 256
    requires a0 * 0x100_0000 + a1 * 0x1_0000 + a2 * 0x100 + a3 == b0 * 0x100_0000 + b1 * 0x1_0000 + b2 * 0x100 + b3
    ensures a0 == b0 && a1 == b1 && a2 == b2 && a3 == b3
  {
  }

  // The first n hash blocks of MGF1.
  function MaskBlocks(d: Digest, seed: seq<octet>, n: nat): seq<octet> {
    if n == 0 then [] else MaskBlocks(d, seed, n - 1) + d.hash(seed + Counter(n - 1))
  }

  // Every block adds at least one octet.
  lemma {:induction false} MaskBlocksLength(d: Digest, seed: seq<octet>, n: nat)
    requires d.Valid()
    ensures |MaskBlocks(d, seed, n)| >= n
    decreases n
  {
    hide Counter;
    if n == 0 {
      assert MaskBlocks(d, seed, n) == [];
    } else {
      MaskBlocksLength(d, seed, n - 1);
    }
  }

  // No block changes the octets before it.
  lemma {:induction false} MaskBlocksPrefix(d: Digest, seed: seq<octet>, n: nat, more: nat)
    ensures MaskBlocks(d, seed, n) <= MaskBlocks(d, seed, n + more)
    decreases more
  {
    hide Counter;
    if more == 0 {
      assert n + more == n;
    } else {
      MaskBlocksPrefix(d, seed, n, more - 1);
    }
  }

  // MGF1: the leading `len` octets of the concatenated hash blocks.
  function Mgf1(d: Digest, seed: seq<octet>, len: nat): seq<octet> {
    var t := MaskBlocks(d, seed, len);
    if |t| < len then [] else t[..len]
  }

  function Mgf1Of(d: Digest): MaskGenerator {
    (seed: seq<octet>, len: nat) => Mgf1(d, seed, len)
  }

  lemma Mgf1GeneratesMasks(d: Digest)
    requires d.Valid()
    ensures GeneratesMasks(Mgf1Of(d))
  {
    forall seed: seq<octet>, len: nat
      ensures |Mgf1Of(d)(seed, len)| == len
    {
      MaskBlocksLength(d, seed, len);
    }
  }

  // However many blocks beyond `len` octets are hashed, the mask is the same.
  lemma Mgf1FromBlocks(d: Digest, seed: seq<octet>, n: nat, len: nat)
    requires d.Valid() && |MaskBlocks(d, seed, n)| >= len
    ensures Mgf1(d, seed, len) == MaskBlocks(d, seed, n)[..len]
  {
    hide MaskBlocks;
    MaskBlocksLength(d, seed, len);
    if n <= len {
      MaskBlocksPrefix(d, seed, n, len - n);
    } else {
      MaskBlocksPrefix(d, seed, len, n - len);
    }
  }

  // Octet k of the hash blocks.
  lemma {:induction false} MaskBlocksAt(d: Digest, seed: seq<octet>, n: nat, k: nat)
    requires d.Valid() && k < |MaskBlocks(d, seed, n)|
    ensures MaskBlocks(d, seed, n)[k] == d.hash(seed + Counter(k / d.size))[k % d.size]
    decreases n
  {
    hide Counter;
    if n == 0 {
      assert false;
    } else {
      MaskBlocksSize(d, seed, n - 1);
      MaskBlocksSize(d, seed, n);
      if k < |MaskBlocks(d, seed, n - 1)| {
        MaskBlocksAt(d, seed, n - 1, k);
      } else {
        LastBlock(d.size, n, k);
      }
    }
  }

  lemma LastBlock(size: nat, n: nat, k: nat)
    requires size >= 1 && n >= 1 && (n - 1) * size <= k < n * size
    ensures k / size == n - 1 && k % size == k - (n - 1) * size
  {
    var r := k - (n - 1) * size;
    assert k == size * (n - 1) + r && 0 <= r < size;
    DivisionUnique(k, size, n - 1, r);
  }

  lemma DivisionUnique(k: nat, size: nat, q: nat, r: nat)
    requires size >= 1 && k == size * q + r && r < size
    ensures k / size == q && k % size == r
  {
    var q1, r1 := k / size, k % size;
    assert k == size * q1 + r1;
    Times(size, q1 + 1, q);
    Times(size, q + 1, q1);
  }

  lemma Times(n: nat, a: nat, b: nat)
    ensures a <= b ==> n * a <= n * b
  {
  }

  lemma {:induction false} MaskBlocksSize(d: Digest, seed: seq<octet>, n: nat)
    requires d.Valid()
    ensures |MaskBlocks(d, seed, n)| == n * d.size
    decreases n
  {
    hide Counter;
    if n == 0 {
      assert MaskBlocks(d, seed, n) == [];
    } else {
      MaskBlocksSize(d, seed, n - 1);
    }
  }

  // Octet k of a mask is octet k mod hLen of the hash of the seed and of the
  // four octets whose value, most significant first, is k div hLen.
  lemma MaskOctet(d: Digest, seed: seq<octet>, len: nat, k: nat, c: seq<octet>)
    requires d.Valid() && k < len <= 0x1_0000_0000
    requires |c| == 4 && BigEndian(c) == k / d.size
    ensures |Mgf1(d, seed, len)| == len
    ensures Mgf1(d, seed, len)[k] == d.hash(seed + c)[k % d.size]
  {
    hide MaskBlocks, Counter, BigEndian;
    MaskBlocksLength(d, seed, len);
    MaskBlocksAt(d, seed, len, k);
    CounterValue(k / d.size);
    BigEndianInjective(c, Counter(k / d.size));
  }

  // One octet of an encoded message before it is masked: zeros, the separator,
  // and the salt.
  function DataOctet(psLen: nat, salt: seq<octet>, k: nat): octet
    requires k < psLen + 1 + |salt|
  {
    if k < psLen then 0 else if k == psLen then 0x01 else salt[k - psLen - 1]
  }

  // An encoded message, octet by octet: the trailer, the hash of eight zeros,
  // message hash and salt before it, and in front of that the data block under
  // the mask of that hash; of the first octet only the bits that fit.
  lemma EncodedOctets(d: Digest, mHash: seq<octet>, salt: seq<octet>, emLen: nat, topBits: nat, k: nat, c: seq<octet>)
    requires d.Valid() && topBits <= 7 && d.size + |salt| + 2 <= emLen <= 0x1_0000_0000
    requires k < emLen - d.size - 1 && |c| == 4 && BigEndian(c) == k / d.size
    ensures var em := Encode(d, Mgf1Of(d), mHash, salt, emLen, topBits);
            var h := d.hash([0, 0, 0, 0, 0, 0, 0, 0] + mHash + salt);
            var masked := XorOctet(DataOctet(emLen - |salt| - d.size - 2, salt, k), d.hash(h + c)[k % d.size]);
            && em.Some? && |em.value| == emLen && em.value[emLen - 1] == 0xbc
            && em.value[emLen - d.size - 1..emLen - 1] == h
            && (k > 0 ==> em.value[k] == masked)
            && (k == 0 ==> Number(em.value[k]) == Number(masked) % Pow2(8 - topBits))
  {
    hide Mgf1, BigEndian, Xor, XorOctet, KeepLow, Pow2, Number, ClearTop;
    assert Zeros(8) == [0, 0, 0, 0, 0, 0, 0, 0];
    var h := SaltedHash(d, mHash, salt);
    var psLen, dbLen := emLen - |salt| - d.size - 2, emLen - d.size - 1;
    var db := Zeros(psLen) + [0x01] + salt;
    MaskOctet(d, h, dbLen, k, c);
    var x := Xor(db, Mgf1(d, h, dbLen));
    ClearTopAt(x, topBits, k);
    KeepLowValue(x[k], topBits);
    var em := Encode(d, Mgf1Of(d), mHash, salt, emLen, topBits).value;
    assert em == ClearTop(x, topBits) + h + [0xbc];
    assert db[k] == DataOctet(psLen, salt, k);
  }
}
