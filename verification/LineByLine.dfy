// blockStreaming_lineByLine.c: lines read with fgets into a ring buffer, and a
// decompressor whose ring has the same size and moves in lockstep.
module LineByLine {
  import opened Bytes
  import opened Files
  import opened BlockFormat
  import opened StreamDecode
  import opened Rings
  import opened BlockStream
  import opened Comparison

  const NEWLINE: byte := 10
  const NUL: byte := 0

  datatype Sizes = Sizes(ring: nat, maxMsg: nat) {
    // fgets needs room for a byte and its terminator.
    predicate Usable() {
      2 <= maxMsg < ring && maxMsg <= MAX_INPUT_SIZE
    }

    // The 16-bit length prefix loses nothing.
    predicate PrefixFits() {
      CompressBound(maxMsg) <= UINT16_MAX
    }
  }

  const SHIPPED: Sizes := Sizes(1024 * 256 + 1024, 1024)

  // How many bytes fgets takes when there is room for `limit`.
  function LineLength(input: seq<byte>, limit: nat): (r: nat)
    ensures r <= limit && r <= |input| && (r == 0 <==> limit == 0 || input == [])
  {
    if limit == 0 || input == [] then 0
    else if input[0] == NEWLINE then 1
    else 1 + LineLength(input[1..], limit - 1)
  }

  // What fgets takes has a newline at most as its last byte, and ends there, or
  // with the input, or when there is no more room.
  lemma {:induction false} LineEnds(input: seq<byte>, limit: nat)
    ensures var r := LineLength(input, limit);
            && (forall k :: 0 <= k < r - 1 ==> input[k] != NEWLINE)
            && (r < limit && r < |input| ==> r >= 1 && input[r - 1] == NEWLINE)
    decreases limit
  {
    if limit == 0 || input == [] || input[0] == NEWLINE {
      assert LineLength(input, limit) <= 1;
    } else {
      LineEnds(input[1..], limit - 1);
      assert forall k :: 0 < k < |input| ==> input[k] == input[1..][k - 1];
    }
  }

  function Strlen(s: seq<byte>): (n: nat)
    ensures n <= |s| && (forall k :: 0 <= k < n ==> s[k] != NUL) && (n < |s| ==> s[n] == NUL)
  {
    if s == [] || s[0] == NUL then 0 else 1 + Strlen(s[1..])
  }

  lemma StrlenOfTerminated(line: seq<byte>, behind: seq<byte>)
    ensures Strlen(line + [NUL] + behind) == Strlen(line)
  {
    if line == [] {
    } else {
      assert (line + [NUL] + behind)[1..] == line[1..] + [NUL] + behind;
    }
  }

  lemma StrlenIsLengthIffNulFree(line: seq<byte>)
    ensures Strlen(line) == |line| <==> NUL !in line
  {
  }

  lemma LineLengthStep(input: seq<byte>, limit: nat)
    ensures limit == 0 || input == [] ==> LineLength(input, limit) == 0
    ensures limit > 0 && input != [] ==>
              LineLength(input, limit) == 1 + if input[0] == NEWLINE then 0 else LineLength(input[1..], limit - 1)
  {
  }

  method Fgets(inpFp: File, buf: array<byte>, at: nat, size: nat) returns (got: bool)
    requires size >= 2 && at + size <= buf.Length
    modifies inpFp`pos, buf
    ensures got <==> old(inpFp.Rest()) != []
    ensures var r := LineLength(old(inpFp.Rest()), size - 1);
            && inpFp.Rest() == old(inpFp.Rest())[r..]
            && (got ==> buf[..] == Splice(old(buf[..]), at, old(inpFp.Rest())[..r] + [NUL]))
  {
    hide LineLength, Splice, File.Rest;
    ghost var input := inpFp.Rest();
    ghost var buf0 := buf[..];
    var i := 0;
    SpliceNothing(buf0, at);
    assert input[..0] == [] && input[0..] == input;
    var newline := false;
    while i < size - 1 && !newline
      invariant i <= size - 1 && i <= |input|
      invariant inpFp.data == old(inpFp.data) && inpFp.Rest() == input[i..]
      invariant LineLength(input, size - 1) == i + if newline then 0 else LineLength(input[i..], size - 1 - i)
      invariant buf[..] == Splice(buf0, at, input[..i])
      invariant newline ==> i > 0
    {
      LineLengthStep(input[i..], size - 1 - i);
      var b := inpFp.ReadBin(1);
      if |b| == 0 {
        break;
      }
      SpliceAppend(buf0, at, input[..i], b[0]);
      assert input[..i + 1] == input[..i] + [b[0]] && input[i..][1..] == input[i + 1..];
      buf[at + i] := b[0];
      i := i + 1;
      newline := b[0] == NEWLINE;
    }
    LineLengthStep(input[i..], size - 1 - i);
    got := i > 0;
    if got {
      SpliceAppend(buf0, at, input[..i], NUL);
      buf[at + i] := NUL;
    }
  }

  // strlen; a NUL stands at `end`, if not earlier.
  method StrLen(buf: array<byte>, at: nat, ghost end: nat) returns (n: nat)
    requires at <= end < buf.Length && buf[end] == NUL
    ensures n == Strlen(buf[at..])
  {
    hide Strlen;
    n := 0;
    while buf[at + n] != NUL
      invariant at + n <= end
      invariant Strlen(buf[at..]) == n + Strlen(buf[at + n..])
      decreases end - n
    {
      StrlenStep(buf[at + n..]);
      assert buf[at + n..][1..] == buf[at + n + 1..];
      n := n + 1;
    }
    StrlenStep(buf[at + n..]);
  }

  lemma StrlenStep(s: seq<byte>)
    requires s != []
    ensures Strlen(s) == if s[0] == NUL then 0 else 1 + Strlen(s[1..])
  {
  }

  lemma {:induction false} LineIsTerminated(mem: seq<byte>, at: nat, line: seq<byte>)
    requires at + |line| < |mem|
    ensures var mem1 := Splice(mem, at, line + [NUL]);
            mem1[at + |line|] == NUL && Strlen(mem1[at..]) == Strlen(line)
  {
    hide Strlen, Splice;
    var mem1 := Splice(mem, at, line + [NUL]);
    SpliceTail(mem, at, line + [NUL]);
    StrlenOfTerminated(line, mem[at + |line| + 1..]);
    assert mem1[at + |line|] == mem1[at..][|line|];
  }

  // fgets into the ring, then strlen: the length is that of the part before the
  // first NUL.
  method ReadLine(inpFp: File, buf: array<byte>, at: nat, size: nat) returns (got: bool, inpBytes: nat)
    requires size >= 2 && at + size <= buf.Length
    modifies inpFp`pos, buf
    ensures got <==> old(inpFp.Rest()) != []
    ensures var r := LineLength(old(inpFp.Rest()), size - 1);
            var line := old(inpFp.Rest())[..r];
            && inpFp.Rest() == old(inpFp.Rest())[r..]
            && (got ==> buf[..] == Splice(old(buf[..]), at, line + [NUL]) && inpBytes == Strlen(line))
  {
    hide LineLength, Strlen, Splice, File.Rest;
    ghost var rest := inpFp.Rest();
    ghost var buf0 := buf[..];
    inpBytes := 0;
    got := Fgets(inpFp, buf, at, size);
    if got {
      LineIsTerminated(buf0, at, rest[..LineLength(rest, size - 1)]);
      assert buf[..][at..] == buf[at..];
      inpBytes := StrLen(buf, at, at + LineLength(rest, size - 1));
    }
  }

  predicate InRing(s: Sizes, e: Encoder) {
    s.Usable() && |e.buf| == s.ring && InBounds(e.lap, s.ring - s.maxMsg, s.maxMsg)
  }

  // The ring with the next line of the input and its terminator in it.
  function Loaded(s: Sizes, e: Encoder, line: seq<byte>): (r: Encoder)
    requires InRing(s, e) && |line| < s.maxMsg
    ensures InRing(s, r) && Room(r.buf, r.lap, |line|)
  {
    e.(buf := Splice(e.buf, e.lap.off, line + [NUL]))
  }

  function Advanced(s: Sizes, e: Encoder, n: nat): (r: Encoder)
    requires InRing(s, e) && n < s.maxMsg
    ensures InRing(s, r)
  {
    Encoder(e.buf, Advance(e.lap, n, s.ring - s.maxMsg), e.round + 1)
  }

  // The payloads written for the rest of the input: one for each line, of
  // which only the part before a NUL is compressed.
  ghost function Payloads(s: Sizes, e: Encoder, input: seq<byte>, c: Compressor): (r: seq<seq<byte>>)
    requires InRing(s, e) && Sound(c)
    ensures Within(r, CompressBound(s.maxMsg)) && Within(r, INT32_MAX)
    decreases |input|
  {
    if input == [] then []
    else
      var r := LineLength(input, s.maxMsg - 1);
      var n := Strlen(input[..r]);
      var loaded := Loaded(s, e, input[..r]);
      BlockFits(c, loaded, n, s.maxMsg);
      [Encode(c(loaded, n))] + Payloads(s, Advanced(s, loaded, n), input[r..], c)
  }

  lemma PayloadsStep(s: Sizes, e: Encoder, input: seq<byte>, c: Compressor)
    requires InRing(s, e) && Sound(c) && input != []
    ensures var r := LineLength(input, s.maxMsg - 1);
            var n := Strlen(input[..r]);
            var loaded := Loaded(s, e, input[..r]);
            && WellFormed(c(loaded, n))
            && Payloads(s, e, input, c) == [Encode(c(loaded, n))] + Payloads(s, Advanced(s, loaded, n), input[r..], c)
  {
    hide Encode, Advance, InBounds, Strlen, LineLength;
    var r := LineLength(input, s.maxMsg - 1);
    var n := Strlen(input[..r]);
    BlockFits(c, Loaded(s, e, input[..r]), n, s.maxMsg);
  }

  // Where line k starts in the input.
  function LineStart(input: seq<byte>, limit: nat, k: nat): (r: nat)
    ensures r <= |input|
  {
    if k == 0 then 0
    else
      var r := LineLength(input, limit);
      r + LineStart(input[r..], limit, k - 1)
  }

  // Payload k is the block that the compressor chooses for line k up to its
  // first NUL, as its message number k.
  lemma {:induction false} PayloadOfLine(s: Sizes, e: Encoder, input: seq<byte>, c: Compressor, k: nat)
    returns (at: Encoder)
    requires InRing(s, e) && Sound(c) && s.Usable() && LineStart(input, s.maxMsg - 1, k) < |input|
    ensures var rest := input[LineStart(input, s.maxMsg - 1, k)..];
            var line := rest[..LineLength(rest, s.maxMsg - 1)];
            && k < |Payloads(s, e, input, c)|
            && BlockFor(c, at, line[..Strlen(line)], Payloads(s, e, input, c)[k])
            && at.round == e.round + k
    decreases k
  {
    hide Payloads, InRing, Sound, BlockFor, Advanced, Loaded, LineLength, Strlen;
    var r := LineLength(input, s.maxMsg - 1);
    var loaded := Loaded(s, e, input[..r]);
    var e1 := Advanced(s, loaded, Strlen(input[..r]));
    NextPayload(s, e, input, c);
    if k == 0 {
      at := loaded;
      assert input[0..] == input;
    } else {
      at := PayloadOfLine(s, e1, input[r..], c, k - 1);
      var start := LineStart(input[r..], s.maxMsg - 1, k - 1);
      assert input[r..][start..] == input[r + start..];
    }
  }

  // The first payload and the rest of them.
  lemma NextPayload(s: Sizes, e: Encoder, input: seq<byte>, c: Compressor)
    requires InRing(s, e) && Sound(c) && input != []
    ensures var r := LineLength(input, s.maxMsg - 1);
            var n := Strlen(input[..r]);
            var loaded := Loaded(s, e, input[..r]);
            var e1 := Advanced(s, loaded, n);
            var payloads := Payloads(s, e, input, c);
            && payloads != [] && payloads[1..] == Payloads(s, e1, input[r..], c)
            && BlockFor(c, loaded, input[..r][..n], payloads[0])
            && loaded.round == e.round && e1.round == e.round + 1
  {
    hide Payloads, Sound, Encode, Legal, WellFormed, LineLength, Strlen, Splice;
    var line := input[..LineLength(input, s.maxMsg - 1)];
    PayloadsStep(s, e, input, c);
    FrontOfLine(e.buf, e.lap.off, line, Strlen(line));
  }

  // What stands in the ring of the part of a line before a NUL.
  lemma FrontOfLine(mem: seq<byte>, at: nat, line: seq<byte>, n: nat)
    requires at + |line| < |mem| && n <= |line|
    ensures Splice(mem, at, line + [NUL])[at..at + n] == line[..n]
  {
    SpliceAt(mem, at, line + [NUL]);
  }

  lemma NoPayloads(s: Sizes, e: Encoder, c: Compressor, p: Policy, d: Decoder)
    requires InRing(s, e) && Sound(c) && d.Ready(p, s.maxMsg)
    ensures Payloads(s, e, [], c) == []
    ensures DecodeAll(p, s.maxMsg, d, Payloads(s, e, [], c)) == []
    ensures Frames(Narrow, Payloads(s, e, [], c)) == Prefix(Narrow, 0)
  {
  }

  function DecodePolicy(s: Sizes): Policy
    requires s.Usable()
  {
    Wrapping(s.ring - s.maxMsg)
  }

  // Both programs at the same moment: the same lap, and in the compressor's
  // ring one byte behind its offset spoilt by the terminator.
  ghost predicate Lockstep(s: Sizes, e: Encoder, d: Decoder, h: seq<byte>) {
    && InRing(s, e) && |d.mem| == s.ring && d.off == e.lap.off
    && (e.lap.prevEnd == 0 ==> e.lap.off == |h|)
    && InStep(e.buf, e.lap, 1, d.mem, e.lap, d.ctx, h)
  }

  function AdvancedDecoder(s: Sizes, d: Decoder, msg: seq<byte>): Decoder
    requires s.Usable() && d.off + |msg| <= |d.mem| && d.ctx.prefixSize <= d.ctx.prefixEnd
  {
    Decoder(Splice(d.mem, d.off, msg), DecodePolicy(s).Next(d.off, |msg|), After(d.ctx, d.off, |msg|))
  }

  // A line without NUL arrives, and the two rings stay at the same offset.
  lemma LineRoundTrip(s: Sizes, e: Encoder, d: Decoder, h: seq<byte>, line: seq<byte>, b: Block)
    requires s.Usable() && 1 <= |line| < s.maxMsg && NUL !in line
    requires Lockstep(s, e, d, h)
    requires Legal(Loaded(s, e, line).buf, e.lap, |line|, b)
    ensures var d1 := AdvancedDecoder(s, d, line);
            && Decompress(d.ctx, d.mem, Encode(b), d.off, s.maxMsg) == Decoded(|line|, d1.mem, d1.ctx)
            && Lockstep(s, Advanced(s, Loaded(s, e, line), |line|), d1, h + line)
  {
    hide Decompress, Encode, Holds, Legal;
    var wrapAt := s.ring - s.maxMsg;
    SameLapCovers(e.lap, |line|);
    MessageIsDecoded(e.buf, e.lap, line, [NUL], b, d.mem, e.lap, d.ctx, s.maxMsg, h);
    MessageKeepsStep(e.buf, e.lap, line, [NUL], d.mem, e.lap, d.ctx, h, wrapAt, wrapAt);
  }

  // A NUL-free input arrives as it was.
  lemma {:induction false} RoundTripFrom(s: Sizes, e: Encoder, d: Decoder, h: seq<byte>, input: seq<byte>, c: Compressor)
    requires s.Usable() && Sound(c) && NUL !in input
    requires Lockstep(s, e, d, h)
    ensures d.Ready(DecodePolicy(s), s.maxMsg)
    ensures DecodeAll(DecodePolicy(s), s.maxMsg, d, Payloads(s, e, input, c)) == input
    decreases |input|
  {
    hide Decompress, DecodeAll, Payloads, LineLength, Strlen, Encode, Legal, Holds, Sound;
    if input == [] {
      NoPayloads(s, e, c, DecodePolicy(s), d);
    } else {
      var r := LineLength(input, s.maxMsg - 1);
      var line := input[..r];
      var loaded := Loaded(s, e, line);
      StrlenIsLengthIffNulFree(line);
      PayloadsStep(s, e, input, c);
      SoundBlock(c, loaded, r);
      LineRoundTrip(s, e, d, h, line, c(loaded, r));
      RoundTripFrom(s, Advanced(s, loaded, r), AdvancedDecoder(s, d, line), h + line, input[r..], c);
      DecodeAllStep(DecodePolicy(s), s.maxMsg, d, Encode(c(loaded, r)),
                    Payloads(s, Advanced(s, loaded, r), input[r..], c), line, After(d.ctx, d.off, r));
      assert line + input[r..] == input;
    }
  }

  // However the decoder stands, it writes no more bytes than were read, and
  // fewer when one of them was NUL.
  lemma {:induction false} NulShortens(s: Sizes, e: Encoder, d: Decoder, input: seq<byte>, c: Compressor)
    requires s.Usable() && Sound(c) && InRing(s, e) && d.Ready(DecodePolicy(s), s.maxMsg)
    ensures var written := DecodeAll(DecodePolicy(s), s.maxMsg, d, Payloads(s, e, input, c));
            |written| <= |input| && (NUL in input ==> |written| < |input|)
    decreases |input|
  {
    hide Decompress, DecodeAll, Payloads, LineLength, Strlen, Encode, Legal, Sound;
    if input == [] {
      NoPayloads(s, e, c, DecodePolicy(s), d);
    } else {
      var r := LineLength(input, s.maxMsg - 1);
      var line := input[..r];
      var n := Strlen(line);
      var loaded := Loaded(s, e, line);
      var rest := Payloads(s, Advanced(s, loaded, n), input[r..], c);
      StrlenIsLengthIffNulFree(line);
      assert input == line + input[r..];
      PayloadsStep(s, e, input, c);
      LegalLength(c, loaded, n);
      DecompressedLength(c(loaded, n), d.mem, d.ctx, d.off, s.maxMsg);
      DecodeAllCons(DecodePolicy(s), s.maxMsg, d, Encode(c(loaded, n)), rest);
      match Decompress(d.ctx, d.mem, Encode(c(loaded, n)), d.off, s.maxMsg)
      case Failed =>
      case Decoded(len, mem, ctx) =>
        NulShortens(s, Advanced(s, loaded, n), Decoder(mem, DecodePolicy(s).Next(d.off, len), ctx), input[r..], c);
    }
  }

  lemma LegalLength(c: Compressor, e: Encoder, n: nat)
    requires Sound(c) && Room(e.buf, e.lap, n)
    ensures WellFormed(c(e, n)) && |Ops(c(e, n))| == n
  {
    SoundBlock(c, e, n);
  }

  lemma StartsInLockstep(s: Sizes, inpBuf: seq<byte>, decBuf: seq<byte>)
    requires s.Usable() && |inpBuf| == s.ring && |decBuf| == s.ring
    ensures var e, d := Encoder(inpBuf, FRESH, 0), Decoder(decBuf, 0, RESET);
            InRing(s, e) && d.Ready(DecodePolicy(s), s.maxMsg) && Lockstep(s, e, d, [])
  {
    hide CompressBound, InStep;
    StartsInStep(inpBuf, 1, decBuf);
  }

  // The compressed file for an input, from whatever the ring contained first.
  ghost function Compressed(s: Sizes, buf: seq<byte>, input: seq<byte>, c: Compressor): seq<byte>
    requires s.Usable() && |buf| == s.ring && Sound(c)
  {
    Frames(Narrow, Payloads(s, Encoder(buf, FRESH, 0), input, c))
  }

  // What the decompressor writes for any file.
  function Decompressed(s: Sizes, buf: seq<byte>, stream: seq<byte>): seq<byte>
    requires s.Usable() && |buf| == s.ring
  {
    DecodeAll(DecodePolicy(s), s.maxMsg, Decoder(buf, 0, RESET), ReadFrames(Narrow, stream))
  }

  // The line program reproduces its input exactly when no byte of it is NUL.
  lemma RoundTripsIffNulFree(s: Sizes, inpBuf: seq<byte>, decBuf: seq<byte>, input: seq<byte>, c: Compressor)
    requires s.Usable() && s.PrefixFits() && Sound(c) && |inpBuf| == s.ring && |decBuf| == s.ring
    ensures Decompressed(s, decBuf, Compressed(s, inpBuf, input, c)) == input <==> NUL !in input
  {
    hide DecodeAll, Payloads, Frames, ReadFrames, Lockstep, InRing;
    StartsInLockstep(s, inpBuf, decBuf);
    var e, d := Encoder(inpBuf, FRESH, 0), Decoder(decBuf, 0, RESET);
    var payloads := Payloads(s, e, input, c);
    WithinMore(payloads, CompressBound(s.maxMsg), Narrow.Max());
    FramesRoundTrip(Narrow, payloads);
    if NUL !in input {
      RoundTripFrom(s, e, d, [], input, c);
    } else {
      NulShortens(s, e, d, input, c);
    }
  }

  lemma ShippedSizesFit()
    ensures SHIPPED.Usable() && SHIPPED.PrefixFits()
  {
  }

  method TestCompress(outFp: File, inpFp: File, s: Sizes, c: Compressor) returns (ghost inpBuf0: seq<byte>)
    requires outFp != inpFp && s.Usable() && Sound(c)
    modifies outFp`data, inpFp`pos
    ensures |inpBuf0| == s.ring
    ensures outFp.data == old(outFp.data) + Compressed(s, inpBuf0, old(inpFp.Rest()), c)
  {
    hide Payloads, LineLength, Strlen, Frames, Prefix, Encode, Sound, CompressBound, InBounds, Advance, Splice, File.Rest;
    var inpBuf := new byte[s.ring];
    inpBuf0 := inpBuf[..];
    var inpOffset: nat, prevEnd: nat, round: nat := 0, 0, 0;
    ghost var e := Encoder(inpBuf0, FRESH, 0);
    ghost var written := [];
    StartInRing(s, inpBuf0);
    ghost var total := Compressed(s, inpBuf0, inpFp.Rest(), c);
    assert total == Frames(Narrow, Payloads(s, e, inpFp.Rest(), c));
    hide Compressed;
    while true
      invariant fresh(inpBuf) && inpFp.data == old(inpFp.data)
      invariant e == Encoder(inpBuf[..], Lap(inpOffset, prevEnd), round) && InRing(s, e)
      invariant outFp.data == old(outFp.data) + written
      invariant total == written + Frames(Narrow, Payloads(s, e, inpFp.Rest(), c))
      decreases |inpFp.Rest()|
    {
      ghost var rest := inpFp.Rest();
      ghost var r := LineLength(rest, s.maxMsg - 1);
      RoomForLine(s, e);
      var got, inpBytes := ReadLine(inpFp, inpBuf, inpOffset, s.maxMsg);
      if !got {
        break;
      }
      FrameOfLine(s, e, rest, c);
      e := Loaded(s, e, rest[..r]);
      var cmpBytes, cmpBuf := CompressContinue(c, Encoder(inpBuf[..], Lap(inpOffset, prevEnd), round), inpBytes,
                                               CompressBound(s.maxMsg));
      if cmpBytes <= 0 {
        break;
      }
      AdvanceCases(e.lap, inpBytes, s.ring - s.maxMsg);
      e := Advanced(s, e, inpBytes);
      ghost var frame, next := Prefix(Narrow, cmpBytes) + cmpBuf, Frames(Narrow, Payloads(s, e, inpFp.Rest(), c));
      assert written + (frame + next) == written + frame + next;
      written := written + frame;
      WriteFrame(outFp, Narrow, cmpBytes, cmpBuf);
      inpOffset := inpOffset + inpBytes;
      round := round + 1;
      // The next line goes to the start once the end of the ring is near.
      if inpOffset >= s.ring - s.maxMsg {
        prevEnd := inpOffset;
        inpOffset := 0;
      }
    }
    NoFrames(s, e, c);
    outFp.WriteBin(Prefix(Narrow, 0));
  }

  // The next frame, and what is still to come after it.
  lemma FrameOfLine(s: Sizes, e: Encoder, input: seq<byte>, c: Compressor)
    requires InRing(s, e) && Sound(c) && input != []
    ensures var r := LineLength(input, s.maxMsg - 1);
            var n := Strlen(input[..r]);
            var loaded := Loaded(s, e, input[..r]);
            && WellFormed(c(loaded, n))
            && 1 <= |Encode(c(loaded, n))| <= CompressBound(s.maxMsg) && |Encode(c(loaded, n))| <= INT32_MAX
            && Frames(Narrow, Payloads(s, e, input, c)) ==
               (Prefix(Narrow, |Encode(c(loaded, n))|) + Encode(c(loaded, n)))
               + Frames(Narrow, Payloads(s, Advanced(s, loaded, n), input[r..], c))
  {
    hide Payloads, Frames, Prefix, Encode, Sound, CompressBound, InBounds, LineLength, Strlen;
    var r := LineLength(input, s.maxMsg - 1);
    var n := Strlen(input[..r]);
    var loaded := Loaded(s, e, input[..r]);
    PayloadsStep(s, e, input, c);
    BlockFits(c, loaded, n, s.maxMsg);
    FramesStep(Narrow, Encode(c(loaded, n)), Payloads(s, Advanced(s, loaded, n), input[r..], c));
  }

  lemma StartInRing(s: Sizes, buf: seq<byte>)
    requires s.Usable() && |buf| == s.ring
    ensures InRing(s, Encoder(buf, FRESH, 0))
  {
  }

  lemma RoomForLine(s: Sizes, e: Encoder)
    requires InRing(s, e)
    ensures e.lap.off + s.maxMsg <= |e.buf| && Room(e.buf, e.lap, s.maxMsg)
  {
  }

  lemma NoFrames(s: Sizes, e: Encoder, c: Compressor)
    requires InRing(s, e) && Sound(c)
    ensures Frames(Narrow, Payloads(s, e, [], c)) == Prefix(Narrow, 0)
  {
  }

  method TestDecompress(outFp: File, inpFp: File, s: Sizes) returns (ghost decBuf0: seq<byte>)
    requires outFp != inpFp && s.Usable()
    modifies outFp`data, inpFp`pos
    ensures |decBuf0| == s.ring
    ensures outFp.data == old(outFp.data) + Decompressed(s, decBuf0, old(inpFp.Rest()))
  {
    hide DecodeAll, ReadFrames, File.Rest;
    var decBuf := new byte[s.ring];
    decBuf0 := decBuf[..];
    var decOffset := 0;
    var lz4StreamDecode := new StreamDecode();
    var p := DecodePolicy(s);
    ghost var d := Decoder(decBuf0, 0, RESET);
    ghost var written := [];
    ghost var total := Decompressed(s, decBuf0, inpFp.Rest());
    assert total == DecodeAll(p, s.maxMsg, d, ReadFrames(Narrow, inpFp.Rest()));
    hide Decompressed, Decoder.Ready, CompressBound;
    while true
      invariant fresh(decBuf) && fresh(lz4StreamDecode)
      invariant d == Decoder(decBuf[..], decOffset, lz4StreamDecode.Value()) && d.Ready(p, s.maxMsg)
      invariant |d.mem| == s.ring
      invariant outFp.data == old(outFp.data) + written
      invariant total == written + DecodeAll(p, s.maxMsg, d, ReadFrames(Narrow, inpFp.Rest()))
      decreases |inpFp.Rest()|
    {
      NothingToDecode(p, s.maxMsg, d);
      var ok, cmpBuf := ReadFrame(inpFp, Narrow);
      if !ok {
        break;
      }
      var decBytes, decoded := DecodeNext(p, lz4StreamDecode, decBuf, decOffset, s.maxMsg, cmpBuf, ReadFrames(Narrow, inpFp.Rest()));
      if decBytes <= 0 {
        break;
      }
      d := Decoder(decBuf[..], p.Next(decOffset, decBytes), lz4StreamDecode.Value());
      ghost var next := DecodeAll(p, s.maxMsg, d, ReadFrames(Narrow, inpFp.Rest()));
      assert written + (decoded + next) == written + decoded + next;
      outFp.WriteBin(decoded);
      written := written + decoded;
      // The next line goes to the start once the end of the ring is near.
      decOffset := decOffset + decBytes;
      if decOffset >= s.ring - s.maxMsg {
        decOffset := 0;
      }
    }
  }

  // main: the comparison finds no difference exactly for NUL-free inputs.
  method CompressDecompressCompare(input: seq<byte>, s: Sizes, c: Compressor) returns (decoded: seq<byte>, cmp: int)
    requires s.Usable() && s.PrefixFits() && Sound(c)
    ensures decoded == input <==> NUL !in input
    ensures cmp == 0 <==> NUL !in input
  {
    hide Compressed, Decompressed, Sound;
    var inpFp := new File(input);
    var lz4Fp := new File([]);
    ghost var inpBuf := TestCompress(lz4Fp, inpFp, s, c);
    var lz4File := new File(lz4Fp.data);
    var decFp := new File([]);
    ghost var decBuf := TestDecompress(decFp, lz4File, s);
    RoundTripsIffNulFree(s, inpBuf, decBuf, input, c);
    var f0 := new File(input);
    var f1 := new File(decFp.data);
    decoded := decFp.data;
    cmp := Compare(f0, f1);
  }
}
