// blockStreaming_doubleBuffer.c: both programs alternate between two adjacent
// slots of one block each.
module DoubleBuffer {
  import opened Bytes
  import opened Files
  import opened BlockFormat
  import opened StreamDecode
  import opened Rings
  import opened BlockStream
  import opened Comparison

  const BLOCK_BYTES: nat := 1024 * 8

  predicate Usable(block: nat) {
    block >= 1 && block <= MAX_INPUT_SIZE
  }

  lemma ShippedBlockIsUsable()
    ensures Usable(BLOCK_BYTES)
  {
  }

  // Where a slot starts in the two-slot buffer.
  function Slot(index: nat, block: nat): nat {
    if index == 0 then 0 else block
  }

  // The slots as a ring of two blocks, before block number `round`.
  function LapOf(round: nat, block: nat): Lap {
    Lap(Slot(round % 2, block), if round < 2 then 0 else 2 * block)
  }

  predicate InSlots(block: nat, e: Encoder) {
    Usable(block) && |e.buf| == 2 * block && e.lap == LapOf(e.round, block)
  }

  function Loaded(block: nat, e: Encoder, msg: seq<byte>): (r: Encoder)
    requires InSlots(block, e) && |msg| <= block
    ensures InSlots(block, r) && Room(r.buf, r.lap, |msg|)
  {
    e.(buf := Splice(e.buf, e.lap.off, msg))
  }

  function Toggled(block: nat, e: Encoder): (r: Encoder)
    requires InSlots(block, e)
    ensures InSlots(block, r)
  {
    Encoder(e.buf, LapOf(e.round + 1, block), e.round + 1)
  }

  // The payloads the compressor writes for the rest of its input.
  ghost function Payloads(block: nat, e: Encoder, input: seq<byte>, c: Compressor): (r: seq<seq<byte>>)
    requires InSlots(block, e) && Sound(c)
    ensures Within(r, CompressBound(block)) && Within(r, INT32_MAX)
    decreases |input|
  {
    if input == [] then []
    else
      var n := Min(block, |input|);
      var loaded := Loaded(block, e, input[..n]);
      BlockFits(c, loaded, n, block);
      [Encode(c(loaded, n))] + Payloads(block, Toggled(block, loaded), input[n..], c)
  }

  lemma PayloadsStep(block: nat, e: Encoder, input: seq<byte>, c: Compressor)
    requires InSlots(block, e) && Sound(c) && input != []
    ensures var n := Min(block, |input|);
            var loaded := Loaded(block, e, input[..n]);
            && WellFormed(c(loaded, n))
            && 1 <= |Encode(c(loaded, n))| <= CompressBound(block) && |Encode(c(loaded, n))| <= INT32_MAX
            && Payloads(block, e, input, c) ==
               [Encode(c(loaded, n))] + Payloads(block, Toggled(block, loaded), input[n..], c)
  {
    hide Encode, CompressBound, LapOf;
    var n := Min(block, |input|);
    BlockFits(c, Loaded(block, e, input[..n]), n, block);
  }

  // Payload k is the block that the compressor chooses for the k-th block of the
  // input, as its message number k.
  lemma {:induction false} PayloadOfBlock(block: nat, e: Encoder, input: seq<byte>, c: Compressor, k: nat)
    returns (at: Encoder)
    requires InSlots(block, e) && Sound(c) && k * block < |input|
    ensures var start := k * block;
            && k < |Payloads(block, e, input, c)|
            && BlockFor(c, at, input[start..Min(start + block, |input|)], Payloads(block, e, input, c)[k])
            && at.round == e.round + k
    decreases k
  {
    hide Payloads, InSlots, Sound, BlockFor, Toggled, Loaded;
    var n := Min(block, |input|);
    var loaded := Loaded(block, e, input[..n]);
    NextPayload(block, e, input, c);
    if k == 0 {
      at := loaded;
      assert input[0..n] == input[..n];
    } else {
      BlocksBefore(k, block);
      at := PayloadOfBlock(block, Toggled(block, loaded), input[block..], c, k - 1);
      var start, stop := (k - 1) * block, Min((k - 1) * block + block, |input| - block);
      assert input[block..][start..stop] == input[block + start..block + stop];
    }
  }

  // The first payload and the rest of them.
  lemma NextPayload(block: nat, e: Encoder, input: seq<byte>, c: Compressor)
    requires InSlots(block, e) && Sound(c) && input != []
    ensures var n := Min(block, |input|);
            var loaded := Loaded(block, e, input[..n]);
            var e1 := Toggled(block, loaded);
            var payloads := Payloads(block, e, input, c);
            && payloads != [] && payloads[1..] == Payloads(block, e1, input[n..], c)
            && BlockFor(c, loaded, input[..n], payloads[0])
            && loaded.round == e.round && e1.round == e.round + 1
  {
    hide Payloads, LapOf, Sound, Encode, Legal, WellFormed, CompressBound;
    PayloadsStep(block, e, input, c);
    SpliceAt(e.buf, e.lap.off, input[..Min(block, |input|)]);
  }

  lemma BlocksBefore(k: nat, block: nat)
    requires k >= 1
    ensures k * block == block + (k - 1) * block && block <= k * block
  {
  }

  lemma NoPayloads(block: nat, e: Encoder, c: Compressor, d: Decoder)
    requires InSlots(block, e) && Sound(c) && d.Ready(Alternating(block), block)
    ensures Payloads(block, e, [], c) == []
    ensures DecodeAll(Alternating(block), block, d, Payloads(block, e, [], c)) == []
    ensures Frames(Wide, Payloads(block, e, [], c)) == Prefix(Wide, 0)
  {
  }

  // Both programs at the same moment: the same slot is next, and the slots
  // hold the end of what has been sent.
  ghost predicate SameSlot(block: nat, e: Encoder, d: Decoder, h: seq<byte>) {
    && InSlots(block, e) && |d.mem| == 2 * block && d.off == e.lap.off
    && InStep(e.buf, e.lap, 0, d.mem, e.lap, d.ctx, h)
  }

  // From the second block on, the slot that is not next holds exactly the
  // block sent last, on both sides.
  lemma OtherSlotIsPreviousBlock(block: nat, e: Encoder, d: Decoder, h: seq<byte>)
    requires SameSlot(block, e, d, h) && e.round >= 1
    ensures var other := Slot((e.round + 1) % 2, block);
            && |h| >= block
            && e.buf[other..other + block] == h[|h| - block..]
            && d.mem[other..other + block] == h[|h| - block..]
  {
    PreviousBlockHeld(block, e.buf, e.round, h);
    PreviousBlockHeld(block, d.mem, e.round, h);
  }

  lemma PreviousBlockHeld(block: nat, mem: seq<byte>, round: nat, h: seq<byte>)
    requires |mem| == 2 * block && round >= 1
    requires Holds(mem, LapOf(round, block), h, LapOf(round, block).off)
    ensures var other := Slot((round + 1) % 2, block);
            |h| >= block && mem[other..other + block] == h[|h| - block..]
  {
    hide Holds;
    var lap := LapOf(round, block);
    if round % 2 == 0 {
      assert lap == Lap(0, 2 * block) && (round + 1) % 2 == 1;
      UpperHalf(mem, h, block);
    } else {
      assert lap.off == block && (round + 1) % 2 == 0;
      LowerHalf(mem, lap, h, block);
    }
  }

  lemma LowerHalf(mem: seq<byte>, lap: Lap, h: seq<byte>, block: nat)
    requires |mem| == 2 * block && lap.off == block && Holds(mem, lap, h, block)
    ensures |h| >= block && mem[0..0 + block] == h[|h| - block..]
  {
    assert mem[0..block] == mem[..block];
  }

  lemma UpperHalf(mem: seq<byte>, h: seq<byte>, block: nat)
    requires |mem| == 2 * block && Holds(mem, Lap(0, 2 * block), h, 0)
    ensures |h| >= block && mem[block..block + block] == h[|h| - block..]
  {
    if block == 0 {
      assert mem[0..0] == h[|h|..];
    } else {
      var held := mem[0..2 * block];
      assert mem[block..block + block] == held[block..];
      assert h[|h| - block..] == h[|h| - 2 * block..|h|][block..];
    }
  }

  function ToggledDecoder(block: nat, d: Decoder, msg: seq<byte>): Decoder
    requires d.off + |msg| <= |d.mem| && d.ctx.prefixSize <= d.ctx.prefixEnd
  {
    Decoder(Splice(d.mem, d.off, msg), Alternating(block).Next(d.off, |msg|), After(d.ctx, d.off, |msg|))
  }

  // A block arrives; after a full one, both programs are at the other slot.
  lemma BlockRoundTrip(block: nat, e: Encoder, d: Decoder, h: seq<byte>, msg: seq<byte>, b: Block)
    requires SameSlot(block, e, d, h) && 1 <= |msg| <= block
    requires Legal(Loaded(block, e, msg).buf, e.lap, |msg|, b)
    ensures var d1 := ToggledDecoder(block, d, msg);
            && Decompress(d.ctx, d.mem, Encode(b), d.off, block) == Decoded(|msg|, d1.mem, d1.ctx)
            && (|msg| == block ==> SameSlot(block, Toggled(block, Loaded(block, e, msg)), d1, h + msg))
  {
    hide Decompress, Encode, Holds, Legal;
    SameLapCovers(e.lap, |msg|);
    assert msg + [] == msg;
    MessageIsDecoded(e.buf, e.lap, msg, [], b, d.mem, e.lap, d.ctx, block, h);
    MessageKeepsStep(e.buf, e.lap, msg, [], d.mem, e.lap, d.ctx, h, block + 1, block + 1);
    if |msg| == block {
      FullBlockToggles(e.round, block);
    }
  }

  // A full block moves the two-slot ring like a ring that wraps past one block.
  lemma FullBlockToggles(round: nat, block: nat)
    requires block >= 1
    ensures Advance(LapOf(round, block), block, block + 1) == LapOf(round + 1, block)
    ensures Alternating(block).Next(LapOf(round, block).off, block) == LapOf(round + 1, block).off
  {
  }

  lemma {:induction false} RoundTripFrom(block: nat, e: Encoder, d: Decoder, h: seq<byte>, input: seq<byte>, c: Compressor)
    requires Sound(c) && SameSlot(block, e, d, h)
    ensures d.Ready(Alternating(block), block)
    ensures DecodeAll(Alternating(block), block, d, Payloads(block, e, input, c)) == input
    decreases |input|
  {
    hide Decompress, DecodeAll, Payloads, Encode, Legal, Holds, Sound;
    if input == [] {
      NoPayloads(block, e, c, d);
    } else {
      var n := Min(block, |input|);
      var msg := input[..n];
      var loaded := Loaded(block, e, msg);
      var d1 := ToggledDecoder(block, d, msg);
      var rest := Payloads(block, Toggled(block, loaded), input[n..], c);
      PayloadsStep(block, e, input, c);
      SoundBlock(c, loaded, n);
      BlockRoundTrip(block, e, d, h, msg, c(loaded, n));
      DecodeAllStep(Alternating(block), block, d, Encode(c(loaded, n)), rest, msg, After(d.ctx, d.off, n));
      if n == block {
        RoundTripFrom(block, Toggled(block, loaded), d1, h + msg, input[n..], c);
      } else {
        NoPayloads(block, Toggled(block, loaded), c, d1);
      }
      assert msg + input[n..] == input;
    }
  }

  // The compressed file for an input, from whatever the slots contained first.
  ghost function Compressed(block: nat, buf: seq<byte>, input: seq<byte>, c: Compressor): seq<byte>
    requires Usable(block) && |buf| == 2 * block && Sound(c)
  {
    Frames(Wide, Payloads(block, Encoder(buf, FRESH, 0), input, c))
  }

  // What the decompressor writes for any file.
  function Decompressed(block: nat, buf: seq<byte>, stream: seq<byte>): seq<byte>
    requires Usable(block) && |buf| == 2 * block
  {
    DecodeAll(Alternating(block), block, Decoder(buf, 0, RESET), ReadFrames(Wide, stream))
  }

  // For every input and every compressor that keeps to the two slots, the
  // decompressor writes exactly the input.
  lemma RoundTrip(block: nat, inpBuf: seq<byte>, decBuf: seq<byte>, input: seq<byte>, c: Compressor)
    requires Usable(block) && Sound(c) && |inpBuf| == 2 * block && |decBuf| == 2 * block
    ensures Decompressed(block, decBuf, Compressed(block, inpBuf, input, c)) == input
  {
    hide DecodeAll, Payloads, Frames, ReadFrames, SameSlot, InSlots;
    StartsInSameSlot(block, inpBuf, decBuf);
    var e, d := Encoder(inpBuf, FRESH, 0), Decoder(decBuf, 0, RESET);
    var payloads := Payloads(block, e, input, c);
    WithinMore(payloads, CompressBound(block), Wide.Max());
    FramesRoundTrip(Wide, payloads);
    RoundTripFrom(block, e, d, [], input, c);
  }

  lemma StartsInSameSlot(block: nat, inpBuf: seq<byte>, decBuf: seq<byte>)
    requires Usable(block) && |inpBuf| == 2 * block && |decBuf| == 2 * block
    ensures var e, d := Encoder(inpBuf, FRESH, 0), Decoder(decBuf, 0, RESET);
            InSlots(block, e) && d.Ready(Alternating(block), block) && SameSlot(block, e, d, [])
  {
    hide CompressBound, InStep;
    StartsInStep(inpBuf, 0, decBuf);
  }

  // Where block number `round` goes.
  lemma RoundSlot(round: nat, block: nat)
    ensures LapOf(round, block).off == Slot(round % 2, block) <= block
    ensures LapOf(round, block).prevEnd <= 2 * block
    ensures LapOf(0, block) == FRESH && Slot(0, block) == 0
    ensures (round + 1) % 2 == (round % 2 + 1) % 2
  {
  }

  method TestCompress(outFp: File, inpFp: File, block: nat, c: Compressor) returns (ghost inpBuf0: seq<byte>)
    requires outFp != inpFp && Usable(block) && Sound(c)
    modifies outFp`data, inpFp`pos
    ensures |inpBuf0| == 2 * block
    ensures outFp.data == old(outFp.data) + Compressed(block, inpBuf0, old(inpFp.Rest()), c)
  {
    hide Payloads, Frames, Prefix, Encode, Sound, CompressBound, Splice, File.Rest, LapOf, Slot;
    var inpBuf := new byte[2 * block];
    inpBuf0 := inpBuf[..];
    var inpBufIndex := 0;
    var round: nat := 0;
    ghost var e := Encoder(inpBuf0, FRESH, 0);
    ghost var written := [];
    RoundSlot(0, block);
    ghost var total := Compressed(block, inpBuf0, inpFp.Rest(), c);
    assert total == Frames(Wide, Payloads(block, e, inpFp.Rest(), c));
    hide Compressed;
    while true
      invariant fresh(inpBuf) && inpFp.data == old(inpFp.data)
      invariant inpBufIndex == round % 2
      invariant e == Encoder(inpBuf[..], LapOf(round, block), round) && InSlots(block, e)
      invariant outFp.data == old(outFp.data) + written
      invariant total == written + Frames(Wide, Payloads(block, e, inpFp.Rest(), c))
      decreases |inpFp.Rest()|
    {
      ghost var rest := inpFp.Rest();
      RoundSlot(round, block);
      var inpPtr := Slot(inpBufIndex, block);
      var inpBytes := inpFp.ReadInto(inpBuf, inpPtr, block);
      if 0 == inpBytes {
        break;
      }
      PayloadsStep(block, e, rest, c);
      e := Loaded(block, e, rest[..inpBytes]);
      var cmpBytes, cmpBuf := CompressContinue(c, Encoder(inpBuf[..], LapOf(round, block), round), inpBytes,
                                               CompressBound(block));
      if cmpBytes <= 0 {
        break;
      }
      e := Toggled(block, e);
      FramesStep(Wide, cmpBuf, Payloads(block, e, inpFp.Rest(), c));
      ghost var frame, next := Prefix(Wide, cmpBytes) + cmpBuf, Frames(Wide, Payloads(block, e, inpFp.Rest(), c));
      assert written + (frame + next) == written + frame + next;
      written := written + frame;
      WriteFrame(outFp, Wide, cmpBytes, cmpBuf);
      round := round + 1;
      inpBufIndex := (inpBufIndex + 1) % 2;
    }
    NoFrames(block, e, c);
    outFp.WriteBin(Prefix(Wide, 0));
  }

  lemma NoFrames(block: nat, e: Encoder, c: Compressor)
    requires InSlots(block, e) && Sound(c)
    ensures Frames(Wide, Payloads(block, e, [], c)) == Prefix(Wide, 0)
  {
  }

  lemma StartsReady(block: nat, decBuf: seq<byte>)
    requires block >= 1 && |decBuf| == 2 * block
    ensures Decoder(decBuf, 0, RESET).Ready(Alternating(block), block) && Slot(0, block) == 0
  {
  }

  // The decoder's index toggles between the slots.
  lemma SlotToggles(index: nat, block: nat, n: nat)
    requires block >= 1 && index < 2
    ensures Alternating(block).Next(Slot(index, block), n) == Slot((index + 1) % 2, block)
    ensures (index + 1) % 2 < 2
  {
  }

  method TestDecompress(outFp: File, inpFp: File, block: nat) returns (ghost decBuf0: seq<byte>)
    requires outFp != inpFp && Usable(block)
    modifies outFp`data, inpFp`pos
    ensures |decBuf0| == 2 * block
    ensures outFp.data == old(outFp.data) + Decompressed(block, decBuf0, old(inpFp.Rest()))
  {
    hide DecodeAll, ReadFrames, File.Rest, Decoder.Ready, CompressBound, Policy.Next, Slot;
    var decBuf := new byte[2 * block];
    decBuf0 := decBuf[..];
    var decBufIndex := 0;
    var lz4StreamDecode := new StreamDecode();
    lz4StreamDecode.SetStreamDecode(0, 0);
    var p := Alternating(block);
    ghost var d := Decoder(decBuf0, 0, RESET);
    StartsReady(block, decBuf0);
    ghost var written := [];
    ghost var total := Decompressed(block, decBuf0, inpFp.Rest());
    assert total == DecodeAll(p, block, d, ReadFrames(Wide, inpFp.Rest()));
    hide Decompressed;
    while true
      invariant fresh(decBuf) && fresh(lz4StreamDecode)
      invariant decBufIndex == 0 || decBufIndex == 1
      invariant d == Decoder(decBuf[..], Slot(decBufIndex, block), lz4StreamDecode.Value()) && d.Ready(p, block)
      invariant outFp.data == old(outFp.data) + written
      invariant total == written + DecodeAll(p, block, d, ReadFrames(Wide, inpFp.Rest()))
      decreases |inpFp.Rest()|
    {
      NothingToDecode(p, block, d);
      var ok, cmpBuf := ReadFrame(inpFp, Wide);
      if !ok {
        break;
      }
      var decPtr := Slot(decBufIndex, block);
      var decBytes, decoded := DecodeNext(p, lz4StreamDecode, decBuf, decPtr, block, cmpBuf, ReadFrames(Wide, inpFp.Rest()));
      if decBytes <= 0 {
        break;
      }
      SlotToggles(decBufIndex, block, decBytes);
      d := Decoder(decBuf[..], p.Next(decPtr, decBytes), lz4StreamDecode.Value());
      ghost var next := DecodeAll(p, block, d, ReadFrames(Wide, inpFp.Rest()));
      assert written + (decoded + next) == written + decoded + next;
      outFp.WriteBin(decoded);
      written := written + decoded;
      decBufIndex := (decBufIndex + 1) % 2;
    }
  }

  // main: compress, decompress, and compare the result with the input.
  method CompressDecompressCompare(input: seq<byte>, block: nat, c: Compressor) returns (decoded: seq<byte>, cmp: int)
    requires Usable(block) && Sound(c)
    ensures decoded == input && cmp == 0
  {
    hide Compressed, Decompressed, Sound;
    var inpFp := new File(input);
    var lz4Fp := new File([]);
    ghost var inpBuf := TestCompress(lz4Fp, inpFp, block, c);
    var lz4File := new File(lz4Fp.data);
    var decFp := new File([]);
    ghost var decBuf := TestDecompress(decFp, lz4File, block);
    RoundTrip(block, inpBuf, decBuf, input, c);
    var f0 := new File(input);
    var f1 := new File(decFp.data);
    decoded := decFp.data;
    cmp := Compare(f0, f1);
  }
}
