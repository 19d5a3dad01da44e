// What the streaming programs share: length-prefixed frames closed by a zero
// length, the compressor as they call it, and the loop of their decoders.
module BlockStream {
  import opened Wrappers
  import opened Bytes
  import opened Files
  import opened History
  import opened BlockFormat
  import opened StreamDecode
  import opened Rings

  // Width of a length prefix: a 32-bit signed or a 16-bit unsigned integer.
  datatype Width = Wide | Narrow {
    function Size(): nat {
      if Wide? then 4 else 2
    }

    function Max(): nat {
      if Wide? then INT32_MAX else UINT16_MAX
    }
  }

  // The prefix written for a length; the narrow form casts to uint16_t.
  function Prefix(w: Width, len: int): (b: seq<byte>)
    requires INT32_MIN <= len <= INT32_MAX
    ensures |b| == w.Size()
  {
    match w
    case Wide => Le32(len)
    case Narrow => Le16(len % 65536)
  }

  function ReadPrefix(w: Width, b: seq<byte>): int
    requires |b| == w.Size()
  {
    match w
    case Wide => FromLe32(b)
    case Narrow => FromLe16(b)
  }

  // Nonempty payloads of at most `max` bytes.
  predicate Within(payloads: seq<seq<byte>>, max: int) {
    forall k :: 0 <= k < |payloads| ==> 1 <= |payloads[k]| <= max
  }

  lemma WithinMore(payloads: seq<seq<byte>>, max: int, more: int)
    requires Within(payloads, max) && max <= more
    ensures Within(payloads, more)
  {
  }

  function Frames(w: Width, payloads: seq<seq<byte>>): seq<byte>
    requires Within(payloads, INT32_MAX)
  {
    if payloads == [] then Prefix(w, 0)
    else Prefix(w, |payloads[0]|) + payloads[0] + Frames(w, payloads[1..])
  }

  lemma FramesStep(w: Width, payload: seq<byte>, rest: seq<seq<byte>>)
    requires 1 <= |payload| <= INT32_MAX && Within(rest, INT32_MAX)
    ensures Within([payload] + rest, INT32_MAX)
    ensures Frames(w, [payload] + rest) == (Prefix(w, |payload|) + payload) + Frames(w, rest)
  {
    assert ([payload] + rest)[1..] == rest;
  }

  // The value of the bytes of a prefix, the first one counting least.
  function PrefixValue(w: Width, b: seq<byte>): int
    requires |b| == w.Size()
  {
    match w
    case Narrow => b[0] as int + b[1] as int * 0x100
    case Wide => b[0] as int + b[1] as int * 0x100 + b[2] as int * 0x1_0000 + b[3] as int * 0x100_0000
  }

  // A file of frames, byte by byte: the length, the payload, and the frames that
  // follow; behind the last one zeros.
  lemma FrameBytes(w: Width, payloads: seq<seq<byte>>)
    requires Within(payloads, w.Max())
    ensures Within(payloads, INT32_MAX)
    ensures var file, size := Frames(w, payloads), w.Size();
            && |file| >= size
            && (payloads == [] ==> |file| == size && PrefixValue(w, file[..size]) == 0)
            && (payloads != [] ==>
                  var len := |payloads[0]|;
                  && PrefixValue(w, file[..size]) == len
                  && |file| >= size + len && file[size..size + len] == payloads[0]
                  && file[size + len..] == Frames(w, payloads[1..]))
  {
    hide PrefixValue, Prefix, ReadPrefix;
    var file, size := Frames(w, payloads), w.Size();
    var len := if payloads == [] then 0 else |payloads[0]|;
    var rest := if payloads == [] then [] else payloads[0] + Frames(w, payloads[1..]);
    PrefixRoundTrip(w, len);
    assert file == Prefix(w, len) + rest;
    assert file[..size] == Prefix(w, len);
    assert file[size..] == rest;
    PrefixIsValue(w, Prefix(w, len));
    if payloads != [] {
      assert file[size..size + len] == rest[..len] && file[size + len..] == rest[len..];
    }
  }

  lemma PrefixIsValue(w: Width, b: seq<byte>)
    requires |b| == w.Size()
    ensures ReadPrefix(w, b) >= 0 ==> PrefixValue(w, b) == ReadPrefix(w, b)
  {
    Positional(b);
  }

  // A compressor writes the prefix and then the block.
  method WriteFrame(outFp: File, w: Width, cmpBytes: int, cmpBuf: seq<byte>)
    requires cmpBytes == |cmpBuf| <= INT32_MAX
    modifies outFp`data
    ensures outFp.data == old(outFp.data) + (Prefix(w, |cmpBuf|) + cmpBuf)
  {
    outFp.WriteBin(Prefix(w, cmpBytes));
    outFp.WriteBin(cmpBuf);
  }

  // The payloads a reader gets before it stops, which it does at a missing
  // prefix, a length that is not positive, or a payload that is cut short.
  function ReadFrames(w: Width, stream: seq<byte>): seq<seq<byte>>
    decreases |stream|
  {
    if |stream| < w.Size() then []
    else
      var len := ReadPrefix(w, stream[..w.Size()]);
      var rest := stream[w.Size()..];
      if len <= 0 || len > |rest| then []
      else [rest[..len]] + ReadFrames(w, rest[len..])
  }

  lemma ReadFramesCases(w: Width, stream: seq<byte>)
    ensures |stream| < w.Size() ==> ReadFrames(w, stream) == []
    ensures |stream| >= w.Size() ==>
              var len := ReadPrefix(w, stream[..w.Size()]);
              var rest := stream[w.Size()..];
              ReadFrames(w, stream) ==
              if len <= 0 || len > |rest| then [] else [rest[..len]] + ReadFrames(w, rest[len..])
  {
  }

  // Read one length-prefixed payload; not ok where a decoder stops reading.
  method ReadFrame(inpFp: File, w: Width) returns (ok: bool, cmpBuf: seq<byte>)
    modifies inpFp`pos
    ensures ReadFrames(w, old(inpFp.Rest())) == if ok then [cmpBuf] + ReadFrames(w, inpFp.Rest()) else []
    ensures ok ==> |inpFp.Rest()| < |old(inpFp.Rest())|
  {
    hide ReadFrames, ReadPrefix, File.Rest;
    ReadFramesCases(w, inpFp.Rest());
    cmpBuf := [];
    var prefix := inpFp.ReadBin(w.Size());
    if |prefix| != w.Size() {
      return false, cmpBuf;
    }
    var cmpBytes := ReadPrefix(w, prefix);
    if cmpBytes <= 0 {
      return false, cmpBuf;
    }
    cmpBuf := inpFp.ReadBin(cmpBytes);
    return |cmpBuf| == cmpBytes, cmpBuf;
  }

  lemma PrefixRoundTrip(w: Width, len: int)
    requires 0 <= len <= w.Max()
    ensures ReadPrefix(w, Prefix(w, len)) == len
  {
    hide Le32, FromLe32, Le16, FromLe16;
    if w.Wide? {
      Le32RoundTrip(len);
    } else {
      Le16RoundTrip(len);
    }
  }

  lemma ReadFramesStep(w: Width, stream: seq<byte>, payload: seq<byte>, tail: seq<byte>)
    requires 1 <= |payload| <= w.Max()
    requires stream == Prefix(w, |payload|) + payload + tail
    ensures ReadFrames(w, stream) == [payload] + ReadFrames(w, tail)
  {
    PrefixRoundTrip(w, |payload|);
    assert stream[..w.Size()] == Prefix(w, |payload|);
    assert stream[w.Size()..] == payload + tail;
    assert (payload + tail)[..|payload|] == payload;
    assert (payload + tail)[|payload|..] == tail;
  }

  // Nonempty payloads whose lengths fit the prefix are read back exactly.
  lemma {:induction false} FramesRoundTrip(w: Width, payloads: seq<seq<byte>>)
    requires Within(payloads, w.Max())
    ensures Within(payloads, INT32_MAX)
    ensures ReadFrames(w, Frames(w, payloads)) == payloads
    decreases |payloads|
  {
    if payloads == [] {
      PrefixRoundTrip(w, 0);
      assert Prefix(w, 0)[..w.Size()] == Prefix(w, 0);
    } else {
      FramesRoundTrip(w, payloads[1..]);
      ReadFramesStep(w, Frames(w, payloads), payloads[0], Frames(w, payloads[1..]));
    }
  }

  // The narrow prefix loses a length exactly when it has more than 16 bits.
  lemma NarrowPrefixIsExact(len: int)
    requires 0 <= len <= INT32_MAX
    ensures ReadPrefix(Narrow, Prefix(Narrow, len)) == len <==> len <= UINT16_MAX
  {
    Le16RoundTrip(len % 65536);
  }

  // The compressor's side: its buffer, where its laps are, and how many
  // messages came before.
  datatype Encoder = Encoder(buf: seq<byte>, lap: Lap, round: nat)

  // A compressor chooses a block for the n bytes at lap.off. That it may look
  // at the number of the message allows every sequence of choices.
  type Compressor = (Encoder, nat) -> Block

  ghost predicate Sound(c: Compressor) {
    forall e: Encoder, n: nat :: Room(e.buf, e.lap, n) ==> Legal(e.buf, e.lap, n, c(e, n))
  }

  // Soundness everywhere loses no generality: whatever choices a compressor
  // makes in one run, there is a sound one that makes the same where they are
  // legal, and stores the message where they are not.
  ghost function Repaired(c: Compressor): Compressor {
    (e: Encoder, n: nat) =>
      if !Room(e.buf, e.lap, n) then Stored([])
      else if Legal(e.buf, e.lap, n, c(e, n)) then c(e, n)
      else Stored(e.buf[e.lap.off..e.lap.off + n])
  }

  lemma RepairedIsSound(c: Compressor)
    ensures Sound(Repaired(c))
    ensures forall e: Encoder, n: nat :: Room(e.buf, e.lap, n) && Legal(e.buf, e.lap, n, c(e, n)) ==> Repaired(c)(e, n) == c(e, n)
  {
    var r := Repaired(c);
    forall e: Encoder, n: nat | Room(e.buf, e.lap, n)
      ensures Legal(e.buf, e.lap, n, r(e, n))
    {
      StoredIsLegal(e.buf, e.lap, n);
    }
  }

  lemma StoredIsLegal(mem: seq<byte>, lap: Lap, n: nat)
    requires Room(mem, lap, n)
    ensures Legal(mem, lap, n, Stored(mem[lap.off..lap.off + n]))
  {
    hide Ops, Offers, Source;
    var b := Stored(mem[lap.off..lap.off + n]);
    forall i | 0 <= i < n
      ensures LegalOp(mem, lap, n, i, Ops(b)[i])
    {
      assert Ops(b)[i] == Put(mem[lap.off + i]);
    }
  }

  // The compressor that finds no matches.
  function StoringCompressor(): Compressor {
    (e: Encoder, n: nat) =>
      if e.lap.off + n <= |e.buf| then Stored(e.buf[e.lap.off..e.lap.off + n]) else Stored([])
  }

  lemma SoundCompressorsExist()
    ensures Sound(StoringCompressor())
  {
    var c := StoringCompressor();
    forall e: Encoder, n: nat | Room(e.buf, e.lap, n)
      ensures Legal(e.buf, e.lap, n, c(e, n))
    {
      assert c(e, n) == Stored(e.buf[e.lap.off..e.lap.off + n]);
    }
  }

  lemma SoundBlock(c: Compressor, e: Encoder, n: nat)
    requires Sound(c) && Room(e.buf, e.lap, n)
    ensures Legal(e.buf, e.lap, n, c(e, n))
  {
  }

  // A payload is the block that the compressor chooses for `piece`, which
  // stands at its offset then.
  ghost predicate BlockFor(c: Compressor, at: Encoder, piece: seq<byte>, payload: seq<byte>) {
    && Room(at.buf, at.lap, |piece|)
    && at.buf[at.lap.off..at.lap.off + |piece|] == piece
    && WellFormed(c(at, |piece|)) && payload == Encode(c(at, |piece|))
  }

  // LZ4_compress_*_continue into a buffer of the given capacity; 0 when the
  // block does not fit.
  method CompressContinue(c: Compressor, e: Encoder, n: nat, capacity: nat) returns (cmpBytes: int, cmpBuf: seq<byte>)
    requires Sound(c) && Room(e.buf, e.lap, n)
    ensures WellFormed(c(e, n))
    ensures |Encode(c(e, n))| <= capacity ==> cmpBuf == Encode(c(e, n)) && cmpBytes == |cmpBuf|
    ensures |Encode(c(e, n))| > capacity ==> cmpBytes == 0
  {
    assert Legal(e.buf, e.lap, n, c(e, n));
    cmpBuf := Encode(c(e, n));
    cmpBytes := if |cmpBuf| <= capacity then |cmpBuf| else 0;
  }

  // With a compress bound of room, compression always succeeds.
  lemma BlockFits(c: Compressor, e: Encoder, n: nat, maxMsg: nat)
    requires Sound(c) && Room(e.buf, e.lap, n) && n <= maxMsg
    ensures WellFormed(c(e, n))
    ensures 1 <= |Encode(c(e, n))| <= CompressBound(maxMsg)
    ensures maxMsg <= MAX_INPUT_SIZE ==> |Encode(c(e, n))| <= INT32_MAX
  {
    SoundBlock(c, e, n);
    EncodeWithinBound(c(e, n));
    assert n / 255 <= maxMsg / 255;
  }

  // How a decoder moves on after n bytes at `off`: back to the start from
  // wrapAt on, or to the other one of two slots.
  datatype Policy = Wrapping(wrapAt: nat) | Alternating(block: nat) {
    function Next(off: nat, n: nat): nat {
      match this
      case Wrapping(wrapAt) => if off + n >= wrapAt then 0 else off + n
      case Alternating(block) => if off == 0 then block else 0
    }

    // Offsets that leave room for a message wherever the decoder stands.
    predicate Allows(off: nat, maxMsg: nat, size: nat) {
      match this
      case Wrapping(wrapAt) => off < wrapAt && wrapAt + maxMsg <= size + 1
      case Alternating(block) => maxMsg == block && 2 * block <= size && (off == 0 || off == block)
    }
  }

  datatype Decoder = Decoder(mem: seq<byte>, off: nat, ctx: Context) {
    predicate Ready(p: Policy, maxMsg: nat) {
      p.Allows(off, maxMsg, |mem|) && ctx.Valid(|mem|)
    }
  }

  // What a decoder writes for a list of payloads: one message after the
  // other until a payload fails.
  function DecodeAll(p: Policy, maxMsg: nat, d: Decoder, payloads: seq<seq<byte>>): seq<byte>
    requires d.Ready(p, maxMsg)
    decreases |payloads|
  {
    if payloads == [] then []
    else
      match Decompress(d.ctx, d.mem, payloads[0], d.off, maxMsg)
      case Failed => []
      case Decoded(n, mem, ctx) =>
        mem[d.off..d.off + n] + DecodeAll(p, maxMsg, Decoder(mem, p.Next(d.off, n), ctx), payloads[1..])
  }

  lemma NothingToDecode(p: Policy, maxMsg: nat, d: Decoder)
    requires d.Ready(p, maxMsg)
    ensures DecodeAll(p, maxMsg, d, []) == []
  {
  }

  lemma DecodeAllCons(p: Policy, maxMsg: nat, d: Decoder, payload: seq<byte>, rest: seq<seq<byte>>)
    requires d.Ready(p, maxMsg)
    ensures match Decompress(d.ctx, d.mem, payload, d.off, maxMsg)
            case Failed => DecodeAll(p, maxMsg, d, [payload] + rest) == []
            case Decoded(n, mem, ctx) =>
              var d1 := Decoder(mem, p.Next(d.off, n), ctx);
              && d.off + n <= |mem| && d1.Ready(p, maxMsg)
              && DecodeAll(p, maxMsg, d, [payload] + rest) == mem[d.off..d.off + n] + DecodeAll(p, maxMsg, d1, rest)
  {
    hide Generic, ViewAt, After;
    assert ([payload] + rest)[1..] == rest;
  }

  // One payload that decodes to `msg`.
  lemma DecodeAllStep(p: Policy, maxMsg: nat, d: Decoder, payload: seq<byte>, rest: seq<seq<byte>>, msg: seq<byte>, ctx: Context)
    requires d.Ready(p, maxMsg) && d.off + |msg| <= |d.mem|
    requires Decompress(d.ctx, d.mem, payload, d.off, maxMsg) == Decoded(|msg|, Splice(d.mem, d.off, msg), ctx)
    ensures var d1 := Decoder(Splice(d.mem, d.off, msg), p.Next(d.off, |msg|), ctx);
            && d1.Ready(p, maxMsg)
            && DecodeAll(p, maxMsg, d, [payload] + rest) == msg + DecodeAll(p, maxMsg, d1, rest)
  {
    hide Decompress, DecodeAll;
    DecodeAllCons(p, maxMsg, d, payload, rest);
    SpliceAt(d.mem, d.off, msg);
  }

  // Decode one payload at `off`. `rest` are the payloads that may follow it.
  method DecodeNext(p: Policy, lz4StreamDecode: StreamDecode, decBuf: array<byte>, off: nat, maxMsg: nat,
                    cmpBuf: seq<byte>, ghost rest: seq<seq<byte>>) returns (decBytes: int, decoded: seq<byte>)
    requires Decoder(decBuf[..], off, lz4StreamDecode.Value()).Ready(p, maxMsg)
    modifies lz4StreamDecode, decBuf
    ensures decBytes <= 0 ==>
              DecodeAll(p, maxMsg, old(Decoder(decBuf[..], off, lz4StreamDecode.Value())), [cmpBuf] + rest) == []
    ensures decBytes > 0 ==>
              var d1 := Decoder(decBuf[..], p.Next(off, decBytes), lz4StreamDecode.Value());
              && off + decBytes <= decBuf.Length && decoded == decBuf[off..off + decBytes] && d1.Ready(p, maxMsg)
              && DecodeAll(p, maxMsg, old(Decoder(decBuf[..], off, lz4StreamDecode.Value())), [cmpBuf] + rest) ==
                 decoded + DecodeAll(p, maxMsg, d1, rest)
  {
    hide DecodeAll, Decompress;
    ghost var d := Decoder(decBuf[..], off, lz4StreamDecode.Value());
    DecodeAllCons(p, maxMsg, d, cmpBuf, rest);
    decBytes := lz4StreamDecode.DecompressSafeContinue(decBuf, cmpBuf, off, maxMsg);
    decoded := [];
    if decBytes > 0 {
      decoded := decBuf[off..off + decBytes];
      assert decBuf[..][off..off + decBytes] == decoded;
    }
  }
}
