// blockStreaming_ringBuffer.c and HCStreaming_ringBuffer.c: a compressor and a
// decompressor that keep their history in ring buffers of different sizes.
module RingBuffer {
  import opened Bytes
  import opened Files
  import opened BlockFormat
  import opened StreamDecode
  import opened Rings
  import opened BlockStream
  import opened Comparison

  const MESSAGE_MAX_BYTES: nat := 1024
  const RING_BUFFER_BYTES: nat := 1024 * 8 + MESSAGE_MAX_BYTES
  const DECODE_RING_BUFFER: nat := RING_BUFFER_BYTES + MESSAGE_MAX_BYTES

  // The three sizes of a program: compressor ring, decompressor ring and
  // longest message.
  datatype Sizes = Sizes(ring: nat, decodeRing: nat, maxMsg: nat) {
    predicate Usable() {
      1 <= maxMsg < ring && maxMsg < decodeRing && maxMsg <= MAX_INPUT_SIZE
    }

    // Rings whose references stay alive (RingSizes.LivenessIffCompatible).
    predicate RoundTrips() {
      Usable() && Compatible(ring - maxMsg, decodeRing - maxMsg, maxMsg)
    }
  }

  const SHIPPED: Sizes := Sizes(RING_BUFFER_BYTES, DECODE_RING_BUFFER, MESSAGE_MAX_BYTES)

  predicate InRing(s: Sizes, e: Encoder) {
    s.Usable() && |e.buf| == s.ring && InBounds(e.lap, s.ring - s.maxMsg, s.maxMsg)
  }

  // Length of the next message: random, at least 1, and no more than is left.
  function NextLength(s: Sizes, rand: nat -> nat, round: nat, left: nat): (n: nat)
    requires s.maxMsg >= 1
    ensures n <= s.maxMsg && n <= left && (n == 0 <==> left == 0)
  {
    Min(rand(round) % s.maxMsg + 1, left)
  }

  // The ring with the next n bytes of the input in it.
  function Loaded(s: Sizes, e: Encoder, msg: seq<byte>): (r: Encoder)
    requires InRing(s, e) && |msg| <= s.maxMsg
    ensures InRing(s, r) && Room(r.buf, r.lap, |msg|)
  {
    e.(buf := Splice(e.buf, e.lap.off, msg))
  }

  function Advanced(s: Sizes, e: Encoder, n: nat): (r: Encoder)
    requires InRing(s, e) && 1 <= n <= s.maxMsg
    ensures InRing(s, r)
  {
    Encoder(e.buf, Advance(e.lap, n, s.ring - s.maxMsg), e.round + 1)
  }

  // The payloads the compressor writes for the rest of its input.
  ghost function Payloads(s: Sizes, e: Encoder, input: seq<byte>, rand: nat -> nat, c: Compressor): (r: seq<seq<byte>>)
    requires InRing(s, e) && Sound(c)
    ensures Within(r, CompressBound(s.maxMsg)) && Within(r, INT32_MAX)
    decreases |input|
  {
    if input == [] then []
    else
      var n := NextLength(s, rand, e.round, |input|);
      var loaded := Loaded(s, e, input[..n]);
      BlockFits(c, loaded, n, s.maxMsg);
      [Encode(c(loaded, n))] + Payloads(s, Advanced(s, loaded, n), input[n..], rand, c)
  }

  // Both programs at the same moment, `h` being all that has been sent.
  ghost predicate Synchronised(s: Sizes, e: Encoder, d: Decoder, dec: Lap, h: seq<byte>) {
    && InRing(s, e) && |d.mem| == s.decodeRing && d.off == dec.off
    && Coupled(e.lap, dec, s.ring - s.maxMsg, s.decodeRing - s.maxMsg, s.maxMsg)
    && InStep(e.buf, e.lap, 0, d.mem, dec, d.ctx, h)
  }

  function AdvancedDecoder(s: Sizes, d: Decoder, msg: seq<byte>): Decoder
    requires s.Usable() && d.off + |msg| <= |d.mem| && d.ctx.prefixSize <= d.ctx.prefixEnd
  {
    Decoder(Splice(d.mem, d.off, msg), Wrapping(s.decodeRing - s.maxMsg).Next(d.off, |msg|), After(d.ctx, d.off, |msg|))
  }

  // One message: the decoder writes what the compressor read, and the two
  // stay synchronised.
  lemma MessageRoundTrip(s: Sizes, e: Encoder, d: Decoder, dec: Lap, h: seq<byte>, msg: seq<byte>, b: Block)
    requires s.RoundTrips() && 1 <= |msg| <= s.maxMsg
    requires Synchronised(s, e, d, dec, h)
    requires Legal(Loaded(s, e, msg).buf, e.lap, |msg|, b)
    ensures var d1 := AdvancedDecoder(s, d, msg);
            && Decompress(d.ctx, d.mem, Encode(b), d.off, s.maxMsg) == Decoded(|msg|, d1.mem, d1.ctx)
            && Synchronised(s, Advanced(s, Loaded(s, e, msg), |msg|), d1, Advance(dec, |msg|, s.decodeRing - s.maxMsg), h + msg)
  {
    hide Decompress, Encode, Holds, Legal, Compatible, Covers, Tracks;
    var n := |msg|;
    var encWrap, decWrap := s.ring - s.maxMsg, s.decodeRing - s.maxMsg;
    CoupledCovers(e.lap, dec, n, encWrap, decWrap, s.maxMsg);
    assert msg + [] == msg;
    MessageIsDecoded(e.buf, e.lap, msg, [], b, d.mem, dec, d.ctx, s.maxMsg, h);
    MessageKeepsStep(e.buf, e.lap, msg, [], d.mem, dec, d.ctx, h, encWrap, decWrap);
    AdvanceCoupled(e.lap, dec, n, encWrap, decWrap, s.maxMsg);
  }

  lemma PayloadsStep(s: Sizes, e: Encoder, input: seq<byte>, rand: nat -> nat, c: Compressor)
    requires InRing(s, e) && Sound(c) && input != []
    ensures var n := NextLength(s, rand, e.round, |input|);
            var loaded := Loaded(s, e, input[..n]);
            && WellFormed(c(loaded, n))
            && Payloads(s, e, input, rand, c) ==
               [Encode(c(loaded, n))] + Payloads(s, Advanced(s, loaded, n), input[n..], rand, c)
  {
    hide Encode, Advance, InBounds;
    var n := NextLength(s, rand, e.round, |input|);
    BlockFits(c, Loaded(s, e, input[..n]), n, s.maxMsg);
  }

  function Sum(lens: seq<nat>): nat {
    if lens == [] then 0 else lens[0] + Sum(lens[1..])
  }

  // Message number k, counted from `round` on, has a freshly drawn length, or
  // what is left of the input when that is less.
  ghost predicate IsCut(s: Sizes, rand: nat -> nat, round: nat, lens: seq<nat>, size: nat) {
    && s.maxMsg >= 1 && Sum(lens) == size
    && forall k :: 0 <= k < |lens| ==>
         1 <= lens[k] && lens[k] == Min(rand(round + k) % s.maxMsg + 1, size - Sum(lens[..k]))
  }

  // The messages of an input are its pieces of these lengths, in their order:
  // payload k is the block that the compressor chooses for piece k, as its
  // message number k.
  lemma {:induction false} PayloadOfMessage(
      s: Sizes, e: Encoder, input: seq<byte>, rand: nat -> nat, c: Compressor, lens: seq<nat>, k: nat)
    returns (at: Encoder)
    requires InRing(s, e) && Sound(c) && IsCut(s, rand, e.round, lens, |input|) && k < |lens|
    ensures |Payloads(s, e, input, rand, c)| == |lens|
    ensures Sum(lens[..k]) + lens[k] <= |input|
    ensures var start := Sum(lens[..k]);
            BlockFor(c, at, input[start..start + lens[k]], Payloads(s, e, input, rand, c)[k]) && at.round == e.round + k
    decreases |lens|
  {
    hide Payloads, InRing, Sound, BlockFor, NextLength, Advanced, Loaded, Sum;
    assert s.maxMsg >= 1;
    hide IsCut;
    var n := NextLength(s, rand, e.round, |input|);
    FirstPiece(s, rand, e.round, lens, |input|);
    var loaded := Loaded(s, e, input[..n]);
    var e1 := Advanced(s, loaded, n);
    NextPayload(s, e, input, rand, c);
    NoPieces(lens);
    if k == 0 {
      at := loaded;
      assert input[0..n] == input[..n];
      if |lens| == 1 {
        NoneLeft(s, e1, rand, c);
        assert input[n..] == [];
      } else {
        var rest := PayloadOfMessage(s, e1, input[n..], rand, c, lens[1..], 0);
      }
    } else {
      at := PayloadOfMessage(s, e1, input[n..], rand, c, lens[1..], k - 1);
      SumStep(lens, k);
      var start := Sum(lens[1..][..k - 1]);
      assert input[n..][start..start + lens[k]] == input[n + start..n + start + lens[k]];
    }
  }

  // The first payload and the rest of them.
  lemma NextPayload(s: Sizes, e: Encoder, input: seq<byte>, rand: nat -> nat, c: Compressor)
    requires InRing(s, e) && Sound(c) && input != []
    ensures var n := NextLength(s, rand, e.round, |input|);
            var loaded := Loaded(s, e, input[..n]);
            var e1 := Advanced(s, loaded, n);
            var payloads := Payloads(s, e, input, rand, c);
            && payloads != [] && payloads[1..] == Payloads(s, e1, input[n..], rand, c)
            && BlockFor(c, loaded, input[..n], payloads[0])
            && loaded.round == e.round && e1.round == e.round + 1
  {
    hide Payloads, InRing, Sound, Encode, Legal, WellFormed;
    PayloadsStep(s, e, input, rand, c);
    SpliceAt(e.buf, e.lap.off, input[..NextLength(s, rand, e.round, |input|)]);
  }

  lemma NoPieces(lens: seq<nat>)
    ensures Sum(lens[..0]) == 0
  {
  }

  lemma SumStep(lens: seq<nat>, k: nat)
    requires 1 <= k <= |lens|
    ensures Sum(lens[..k]) == lens[0] + Sum(lens[1..][..k - 1])
  {
    assert lens[..k][1..] == lens[1..][..k - 1];
  }

  // What follows the first piece of a cut is a cut of the rest.
  lemma FirstPiece(s: Sizes, rand: nat -> nat, round: nat, lens: seq<nat>, size: nat)
    requires IsCut(s, rand, round, lens, size) && lens != []
    ensures size >= 1 && lens[0] == NextLength(s, rand, round, size) <= size
    ensures IsCut(s, rand, round + 1, lens[1..], size - lens[0])
    ensures |lens| == 1 ==> lens[0] == size
  {
    assert lens[..0] == [];
    forall k | 0 <= k < |lens| - 1
      ensures 1 <= lens[1..][k]
           && lens[1..][k] == Min(rand(round + 1 + k) % s.maxMsg + 1, size - lens[0] - Sum(lens[1..][..k]))
    {
      assert lens[1..][k] == lens[k + 1];
      SumStep(lens, k + 1);
    }
    if |lens| == 1 {
      assert lens[1..] == [];
    }
  }

  lemma NoneLeft(s: Sizes, e: Encoder, rand: nat -> nat, c: Compressor)
    requires InRing(s, e) && Sound(c)
    ensures Payloads(s, e, [], rand, c) == []
  {
  }

  // Whatever is drawn, the messages cut the input in this way.
  lemma {:induction false} DrawnCut(s: Sizes, rand: nat -> nat, round: nat, size: nat) returns (lens: seq<nat>)
    requires s.maxMsg >= 1
    ensures IsCut(s, rand, round, lens, size)
    decreases size
  {
    if size == 0 {
      lens := [];
    } else {
      var n := NextLength(s, rand, round, size);
      var rest := DrawnCut(s, rand, round + 1, size - n);
      lens := [n] + rest;
      CutInFront(s, rand, round, n, rest, size);
    }
  }

  lemma CutInFront(s: Sizes, rand: nat -> nat, round: nat, n: nat, rest: seq<nat>, size: nat)
    requires s.maxMsg >= 1 && size >= 1 && n == NextLength(s, rand, round, size)
    requires IsCut(s, rand, round + 1, rest, size - n)
    ensures IsCut(s, rand, round, [n] + rest, size)
  {
    hide Sum;
    var lens := [n] + rest;
    assert lens[1..] == rest && lens[..|lens|] == lens;
    SumStep(lens, |lens|);
    assert rest[..|rest|] == rest;
    NoPieces(lens);
    forall k | 0 <= k < |lens|
      ensures 1 <= lens[k] && lens[k] == Min(rand(round + k) % s.maxMsg + 1, size - Sum(lens[..k]))
    {
      if k > 0 {
        SumStep(lens, k);
        assert lens[k] == rest[k - 1];
        assert rand(round + 1 + (k - 1)) == rand(round + k);
      }
    }
  }

  // Every cut into messages of 1 to maxMsg bytes is drawn by some sequence of
  // random numbers.
  lemma EveryCutIsDrawn(s: Sizes, lens: seq<nat>, size: nat) returns (rand: nat -> nat)
    requires s.maxMsg >= 1 && IsRun(lens, s.maxMsg) && Sum(lens) == size
    ensures IsCut(s, rand, 0, lens, size)
  {
    rand := (k: nat) => if k < |lens| then lens[k] - 1 else 0;
    hide Sum;
    forall k | 0 <= k < |lens|
      ensures 1 <= lens[k] && lens[k] == Min(rand(0 + k) % s.maxMsg + 1, size - Sum(lens[..k]))
    {
      SumWithin(lens, k);
      assert rand(0 + k) == lens[k] - 1;
      DrawnLength(lens[k], s.maxMsg);
    }
  }

  lemma DrawnLength(n: nat, maxMsg: nat)
    requires 1 <= n <= maxMsg
    ensures (n - 1) % maxMsg + 1 == n
  {
  }

  lemma {:induction false} SumWithin(lens: seq<nat>, k: nat)
    requires k < |lens|
    ensures Sum(lens[..k]) + lens[k] <= Sum(lens)
    decreases k
  {
    if k == 0 {
      assert Sum(lens[..0]) == 0;
    } else {
      SumWithin(lens[1..], k - 1);
      SumStep(lens, k);
    }
  }

  // Every cut is reached by some run of the compressor, message by message.
  lemma EveryCutIsReached(s: Sizes, buf: seq<byte>, input: seq<byte>, c: Compressor, lens: seq<nat>)
    returns (rand: nat -> nat)
    requires s.Usable() && |buf| == s.ring && Sound(c)
    requires IsRun(lens, s.maxMsg) && Sum(lens) == |input|
    ensures var payloads := Payloads(s, Encoder(buf, FRESH, 0), input, rand, c);
            && |payloads| == |lens|
            && forall k :: 0 <= k < |lens| ==>
                 var start := Sum(lens[..k]);
                 && start + lens[k] <= |input|
                 && exists at :: BlockFor(c, at, input[start..start + lens[k]], payloads[k]) && at.round == k
  {
    hide Payloads, Sound, Sum, BlockFor;
    rand := EveryCutIsDrawn(s, lens, |input|);
    var e := Encoder(buf, FRESH, 0);
    if lens == [] {
      NoPieces(lens);
      NoneLeft(s, e, rand, c);
      assert lens[..0] == lens && input == [];
    } else {
      var first := PayloadOfMessage(s, e, input, rand, c, lens, 0);
    }
    forall k | 0 <= k < |lens|
      ensures var start := Sum(lens[..k]);
              && start + lens[k] <= |input|
              && exists at :: BlockFor(c, at, input[start..start + lens[k]], Payloads(s, e, input, rand, c)[k]) && at.round == k
    {
      var at := PayloadOfMessage(s, e, input, rand, c, lens, k);
      assert at.round == k;
    }
  }

  lemma NoPayloads(s: Sizes, e: Encoder, rand: nat -> nat, c: Compressor, p: Policy, d: Decoder)
    requires InRing(s, e) && Sound(c) && d.Ready(p, s.maxMsg)
    ensures DecodeAll(p, s.maxMsg, d, Payloads(s, e, [], rand, c)) == []
  {
  }

  lemma SynchronisedIsReady(s: Sizes, e: Encoder, d: Decoder, dec: Lap, h: seq<byte>)
    requires s.Usable() && Synchronised(s, e, d, dec, h)
    ensures d.Ready(Wrapping(s.decodeRing - s.maxMsg), s.maxMsg)
  {
  }

  lemma {:induction false} RoundTripFrom(
      s: Sizes, e: Encoder, d: Decoder, dec: Lap, h: seq<byte>, input: seq<byte>, rand: nat -> nat, c: Compressor)
    requires s.RoundTrips() && Sound(c)
    requires Synchronised(s, e, d, dec, h)
    ensures d.Ready(Wrapping(s.decodeRing - s.maxMsg), s.maxMsg)
    ensures DecodeAll(Wrapping(s.decodeRing - s.maxMsg), s.maxMsg, d, Payloads(s, e, input, rand, c)) == input
    decreases |input|
  {
    hide Decompress, DecodeAll, Payloads, NextLength, Encode, Legal, Holds, Sound, Compatible, Coupled, Tracks;
    SynchronisedIsReady(s, e, d, dec, h);
    if input == [] {
      NoPayloads(s, e, rand, c, Wrapping(s.decodeRing - s.maxMsg), d);
    } else {
      var n := NextLength(s, rand, e.round, |input|);
      var msg := input[..n];
      var loaded := Loaded(s, e, msg);
      PayloadsStep(s, e, input, rand, c);
      SoundBlock(c, loaded, n);
      MessageRoundTrip(s, e, d, dec, h, msg, c(loaded, n));
      RoundTripFrom(s, Advanced(s, loaded, n), AdvancedDecoder(s, d, msg), Advance(dec, n, s.decodeRing - s.maxMsg),
                    h + msg, input[n..], rand, c);
      DecodeAllStep(Wrapping(s.decodeRing - s.maxMsg), s.maxMsg, d, Encode(c(loaded, n)),
                    Payloads(s, Advanced(s, loaded, n), input[n..], rand, c), msg, After(d.ctx, d.off, n));
      assert msg + input[n..] == input;
    }
  }

  lemma StartsSynchronised(s: Sizes, inpBuf: seq<byte>, decBuf: seq<byte>)
    requires s.Usable() && |inpBuf| == s.ring && |decBuf| == s.decodeRing
    ensures var e, d := Encoder(inpBuf, FRESH, 0), Decoder(decBuf, 0, RESET);
            && InRing(s, e) && d.Ready(Wrapping(s.decodeRing - s.maxMsg), s.maxMsg)
            && Synchronised(s, e, d, FRESH, [])
  {
    hide CompressBound, InStep;
    StartsInStep(inpBuf, 0, decBuf);
  }

  // The compressed file for an input, from whatever the ring contained first.
  ghost function Compressed(s: Sizes, buf: seq<byte>, input: seq<byte>, rand: nat -> nat, c: Compressor): seq<byte>
    requires s.Usable() && |buf| == s.ring && Sound(c)
  {
    Frames(Wide, Payloads(s, Encoder(buf, FRESH, 0), input, rand, c))
  }

  // What the decompressor writes for any file.
  function Decompressed(s: Sizes, buf: seq<byte>, stream: seq<byte>): seq<byte>
    requires s.Usable() && |buf| == s.decodeRing
  {
    DecodeAll(Wrapping(s.decodeRing - s.maxMsg), s.maxMsg, Decoder(buf, 0, RESET), ReadFrames(Wide, stream))
  }

  // For every input, every way to cut it into messages and every compressor
  // that keeps to its ring, the decompressor writes exactly the input.
  lemma RoundTrip(s: Sizes, inpBuf: seq<byte>, decBuf: seq<byte>, input: seq<byte>, rand: nat -> nat, c: Compressor)
    requires s.RoundTrips() && Sound(c) && |inpBuf| == s.ring && |decBuf| == s.decodeRing
    ensures Decompressed(s, decBuf, Compressed(s, inpBuf, input, rand, c)) == input
  {
    hide DecodeAll, Payloads, Frames, ReadFrames, Synchronised, InRing;
    StartsSynchronised(s, inpBuf, decBuf);
    var e, d := Encoder(inpBuf, FRESH, 0), Decoder(decBuf, 0, RESET);
    var payloads := Payloads(s, e, input, rand, c);
    WithinMore(payloads, CompressBound(s.maxMsg), Wide.Max());
    FramesRoundTrip(Wide, payloads);
    RoundTripFrom(s, e, d, FRESH, [], input, rand, c);
  }

  lemma ShippedSizesRoundTrip()
    ensures SHIPPED.RoundTrips() && CompressBound(MESSAGE_MAX_BYTES) == 1044
  {
  }

  method TestCompress(outFp: File, inpFp: File, s: Sizes, rand: nat -> nat, c: Compressor) returns (ghost inpBuf0: seq<byte>)
    requires outFp != inpFp && s.Usable() && Sound(c)
    modifies outFp`data, inpFp`pos
    ensures |inpBuf0| == s.ring
    ensures outFp.data == old(outFp.data) + Compressed(s, inpBuf0, old(inpFp.Rest()), rand, c)
  {
    hide Payloads, NextLength, Frames, Prefix, Encode, Sound, CompressBound, InBounds, Advance, Splice, File.Rest;
    var inpBuf := new byte[s.ring](_ => 0);
    var inpOffset: nat, prevEnd: nat, round: nat := 0, 0, 0;
    inpBuf0 := inpBuf[..];
    ghost var e := Encoder(inpBuf0, FRESH, 0);
    ghost var written := [];
    StartInRing(s, inpBuf0);
    ghost var total := Compressed(s, inpBuf0, inpFp.Rest(), rand, c);
    assert total == Frames(Wide, Payloads(s, e, inpFp.Rest(), rand, c));
    hide Compressed;
    while true
      invariant fresh(inpBuf) && inpFp.data == old(inpFp.data)
      invariant e == Encoder(inpBuf[..], Lap(inpOffset, prevEnd), round) && InRing(s, e)
      invariant outFp.data == old(outFp.data) + written
      invariant total == written + Frames(Wide, Payloads(s, e, inpFp.Rest(), rand, c))
      decreases |inpFp.Rest()|
    {
      ghost var rest := inpFp.Rest();
      RoomForMessage(s, e);
      var randomLength := rand(round) % s.maxMsg + 1;
      var inpBytes := inpFp.ReadInto(inpBuf, inpOffset, randomLength);
      IsNextLength(s, rand, round, |rest|);
      if 0 == inpBytes {
        break;
      }
      PayloadsStep(s, e, rest, rand, c);
      e := Loaded(s, e, rest[..inpBytes]);
      BlockFits(c, e, inpBytes, s.maxMsg);
      var cmpBytes, cmpBuf := CompressContinue(c, Encoder(inpBuf[..], Lap(inpOffset, prevEnd), round), inpBytes,
                                               CompressBound(s.maxMsg));
      if cmpBytes <= 0 {
        break;
      }
      AdvanceCases(e.lap, inpBytes, s.ring - s.maxMsg);
      e := Advanced(s, e, inpBytes);
      FramesStep(Wide, cmpBuf, Payloads(s, e, inpFp.Rest(), rand, c));
      ghost var frame, next := Prefix(Wide, cmpBytes) + cmpBuf, Frames(Wide, Payloads(s, e, inpFp.Rest(), rand, c));
      assert written + (frame + next) == written + frame + next;
      written := written + frame;
      WriteFrame(outFp, Wide, cmpBytes, cmpBuf);
      inpOffset := inpOffset + inpBytes;
      round := round + 1;
      // The next message goes to the start once the end of the ring is near.
      if inpOffset >= s.ring - s.maxMsg {
        prevEnd := inpOffset;
        inpOffset := 0;
      }
    }
    EmptyFrames(s, e, rand, c);
    outFp.WriteBin(Prefix(Wide, 0));
  }

  lemma StartInRing(s: Sizes, buf: seq<byte>)
    requires s.Usable() && |buf| == s.ring
    ensures InRing(s, Encoder(buf, FRESH, 0))
  {
  }

  lemma RoomForMessage(s: Sizes, e: Encoder)
    requires InRing(s, e)
    ensures e.lap.off + s.maxMsg <= |e.buf| && Room(e.buf, e.lap, s.maxMsg)
  {
  }

  lemma IsNextLength(s: Sizes, rand: nat -> nat, round: nat, left: nat)
    requires s.maxMsg >= 1
    ensures NextLength(s, rand, round, left) == Min(rand(round) % s.maxMsg + 1, left)
    ensures 1 <= rand(round) % s.maxMsg + 1 <= s.maxMsg
  {
  }

  lemma EmptyFrames(s: Sizes, e: Encoder, rand: nat -> nat, c: Compressor)
    requires InRing(s, e) && Sound(c)
    ensures Frames(Wide, Payloads(s, e, [], rand, c)) == Prefix(Wide, 0)
  {
  }

  method TestDecompress(outFp: File, inpFp: File, s: Sizes) returns (ghost decBuf0: seq<byte>)
    requires outFp != inpFp && s.Usable()
    modifies outFp`data, inpFp`pos
    ensures |decBuf0| == s.decodeRing
    ensures outFp.data == old(outFp.data) + Decompressed(s, decBuf0, old(inpFp.Rest()))
  {
    hide DecodeAll, ReadFrames, File.Rest;
    var decBuf := new byte[s.decodeRing](_ => 0);
    var decOffset := 0;
    var lz4StreamDecode := new StreamDecode();
    var p := Wrapping(s.decodeRing - s.maxMsg);
    decBuf0 := decBuf[..];
    ghost var d := Decoder(decBuf0, 0, RESET);
    ghost var written := [];
    ghost var total := Decompressed(s, decBuf0, inpFp.Rest());
    assert total == DecodeAll(p, s.maxMsg, d, ReadFrames(Wide, inpFp.Rest()));
    hide Decompressed, Decoder.Ready, CompressBound;
    while true
      invariant fresh(decBuf) && fresh(lz4StreamDecode)
      invariant d == Decoder(decBuf[..], decOffset, lz4StreamDecode.Value()) && d.Ready(p, s.maxMsg)
      invariant |d.mem| == s.decodeRing
      invariant outFp.data == old(outFp.data) + written
      invariant total == written + DecodeAll(p, s.maxMsg, d, ReadFrames(Wide, inpFp.Rest()))
      decreases |inpFp.Rest()|
    {
      NothingToDecode(p, s.maxMsg, d);
      var ok, cmpBuf := ReadFrame(inpFp, Wide);
      if !ok {
        break;
      }
      var decBytes, decoded := DecodeNext(p, lz4StreamDecode, decBuf, decOffset, s.maxMsg, cmpBuf, ReadFrames(Wide, inpFp.Rest()));
      if decBytes <= 0 {
        break;
      }
      d := Decoder(decBuf[..], p.Next(decOffset, decBytes), lz4StreamDecode.Value());
      ghost var next := DecodeAll(p, s.maxMsg, d, ReadFrames(Wide, inpFp.Rest()));
      assert written + (decoded + next) == written + decoded + next;
      outFp.WriteBin(decoded);
      written := written + decoded;
      decOffset := decOffset + decBytes;
      // The next message goes to the start once the end of the ring is near.
      if decOffset >= s.decodeRing - s.maxMsg {
        decOffset := 0;
      }
    }
  }

  // main: compress, decompress, and compare the result with the input in both
  // ways the two programs have.
  method CompressDecompressCompare(input: seq<byte>, s: Sizes, rand: nat -> nat, c: Compressor)
    returns (decoded: seq<byte>, cmp: int, reported: nat)
    requires s.RoundTrips() && Sound(c)
    ensures decoded == input && cmp == 0 && reported == 0
  {
    hide Compressed, Decompressed, Sound;
    var inpFp := new File(input);
    var lz4Fp := new File([]);
    ghost var inpBuf := TestCompress(lz4Fp, inpFp, s, rand, c);
    var lz4File := new File(lz4Fp.data);
    var decFp := new File([]);
    ghost var decBuf := TestDecompress(decFp, lz4File, s);
    RoundTrip(s, inpBuf, decBuf, input, rand, c);
    var f0 := new File(input);
    var f1 := new File(decFp.data);
    decoded := decFp.data;
    cmp := Compare(f0, f1);
    var g0 := new File(input);
    var g1 := new File(decFp.data);
    reported := CompareReporting(g0, g1);
  }
}
