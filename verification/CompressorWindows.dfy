// The windows the two LZ4 compressors keep for themselves in a ring: the
// bookkeeping of LZ4_compress_fast_continue and LZ4_compress_HC_continue, and
// when they offer no byte that the ring no longer holds.
module CompressorWindows {
  import opened Bytes
  import opened History
  import opened BlockFormat
  import opened StreamDecode
  import opened Rings

  const TINY: nat := 4

  // LZ4_stream_t: the memory segment that precedes the next message.
  datatype Fast = Fast(dictionary: nat, dictSize: nat)

  // The segment as it is used for n > 0 bytes at `source`: tiny segments are
  // dropped, and a segment the message runs into is cut at the message's end.
  function FastTrim(c: Fast, source: nat, n: nat): Fast {
    var c1 := if c.dictSize < TINY && !(c.dictSize > 0 && c.dictionary + c.dictSize == source)
      then Fast(source, 0) else c;
    var dictEnd := c1.dictionary + c1.dictSize;
    var sourceEnd := source + n;
    if c1.dictionary < sourceEnd < dictEnd then
      var size := if dictEnd - sourceEnd > WINDOW then WINDOW else dictEnd - sourceEnd;
      var size1 := if size < TINY then 0 else size;
      Fast(dictEnd - size1, size1)
    else c1
  }

  // Prefix mode extends the segment; otherwise the message is the new one.
  function FastNext(c: Fast, source: nat, n: nat): Fast {
    var t := FastTrim(c, source, n);
    if t.dictionary + t.dictSize == source then Fast(t.dictionary, t.dictSize + n) else Fast(source, n)
  }

  // Distances within reach at byte i of the message, and what they refer to.
  predicate FastOffers(c: Fast, source: nat, n: nat, i: nat, d: nat) {
    1 <= d <= i + FastTrim(c, source, n).dictSize
  }

  function FastSource(c: Fast, source: nat, n: nat, i: nat, d: nat): int {
    var t := FastTrim(c, source, n);
    if d <= i then source + i - d else t.dictionary + t.dictSize - (d - i)
  }

  // The segment is the end of the current lap or, at the start of a lap, of
  // the previous one.
  predicate FastTracks(c: Fast, lap: Lap) {
    if lap.off > 0 then c.dictionary + c.dictSize == lap.off
    else if lap.prevEnd > 0 then c.dictionary + c.dictSize == lap.prevEnd
    else c.dictSize == 0
  }

  // Everything the fast compressor offers for a message is live, and where it
  // looks for it.
  ghost predicate FastConfined(c: Fast, lap: Lap, n: nat) {
    forall i, d :: 0 <= i < n && FastOffers(c, lap.off, n, i, d) ==>
      Offers(lap, n, i, d) && FastSource(c, lap.off, n, i, d) == Source(lap, i, d)
  }

  // A message that covers the whole previous lap is not noticed: the segment is
  // kept, unless it is tiny, although every byte of it has been overwritten.
  predicate CoversLap(c: Fast, lap: Lap, n: nat) {
    lap.off == 0 && c.dictSize >= TINY && n >= lap.prevEnd > 0
  }

  // That is the only way in which the fast compressor offers a dead byte.
  lemma FastConfinedIffNotCovered(c: Fast, lap: Lap, n: nat)
    requires FastTracks(c, lap) && n >= 1
    ensures FastConfined(c, lap, n) <==> !CoversLap(c, lap, n)
  {
    if CoversLap(c, lap, n) {
      assert FastOffers(c, lap.off, n, 0, 1) && !Offers(lap, n, 0, 1);
    }
  }

  function FastAfter(lens: seq<nat>, wrapAt: nat): Fast
    decreases |lens|
  {
    if lens == [] then Fast(0, 0)
    else
      var before := lens[..|lens| - 1];
      FastNext(FastAfter(before, wrapAt), AfterMessages(before, wrapAt).off, lens[|lens| - 1])
  }

  // Over all runs the segment is all of the current lap or, at the start of a
  // lap, all of the previous one.
  lemma {:induction false} FastKeepsLap(lens: seq<nat>, wrapAt: nat)
    requires wrapAt >= 1 && forall k :: 0 <= k < |lens| ==> lens[k] >= 1
    ensures var c, lap := FastAfter(lens, wrapAt), AfterMessages(lens, wrapAt);
            c == Fast(0, if lap.off > 0 then lap.off else lap.prevEnd) && FastTracks(c, lap)
    decreases |lens|
  {
    if lens == [] {
      assert FastAfter(lens, wrapAt) == Fast(0, 0);
    } else {
      FastKeepsLap(lens[..|lens| - 1], wrapAt);
    }
  }

  // After any run, the fast compressor offers exactly the current lap and, at
  // the start of a lap, what the message leaves of the last 64 KB of the
  // previous one, apart from a remainder of less than four bytes. Where the
  // message leaves nothing of it, it offers the previous lap as it was.
  lemma FastOffersExactly(lens: seq<nat>, n: nat, wrapAt: nat, i: nat, d: nat)
    requires wrapAt >= 1 && i < n && forall k :: 0 <= k < |lens| ==> lens[k] >= 1
    ensures var c, lap := FastAfter(lens, wrapAt), AfterMessages(lens, wrapAt);
            FastOffers(c, lap.off, n, i, d) <==>
            && d >= 1
            && (|| d <= lap.off + i
                || (lap.off == 0 && lap.prevEnd >= n + TINY && d + n <= lap.prevEnd + i && d <= WINDOW + i)
                || (CoversLap(c, lap, n) && d <= lap.prevEnd + i))
  {
    hide FastAfter, AfterMessages;
    FastKeepsLap(lens, wrapAt);
  }

  // The fast compressor is confined to live bytes in one run of a ring.
  ghost predicate FastConfinedAfter(lens: seq<nat>, n: nat, ring: nat, maxMsg: nat)
    requires maxMsg <= ring
  {
    FastConfined(FastAfter(lens, ring - maxMsg), AfterMessages(lens, ring - maxMsg), n)
  }

  lemma FastConfinedInRun(lens: seq<nat>, n: nat, ring: nat, maxMsg: nat)
    requires maxMsg < ring && IsRun(lens, maxMsg) && 1 <= n <= maxMsg
    requires 2 * maxMsg < ring || maxMsg < TINY
    ensures FastConfinedAfter(lens, n, ring, maxMsg)
  {
    hide FastConfined;
    var wrapAt := ring - maxMsg;
    var c, lap := FastAfter(lens, wrapAt), AfterMessages(lens, wrapAt);
    FastKeepsLap(lens, wrapAt);
    RunsAreCoupled(lens, wrapAt, wrapAt, maxMsg);
    FastConfinedIffNotCovered(c, lap, n);
  }

  // In a ring of at most two messages, a longest message is followed by another
  // one that covers it.
  lemma FastLeavesSmallRing(ring: nat, maxMsg: nat)
    requires TINY <= maxMsg < ring <= 2 * maxMsg
    ensures IsRun([maxMsg], maxMsg) && !FastConfinedAfter([maxMsg], maxMsg, ring, maxMsg)
  {
    var lens, wrapAt := [maxMsg], ring - maxMsg;
    assert lens[..0] == [];
    assert AfterMessages(lens[..0], wrapAt) == FRESH && FastAfter(lens[..0], wrapAt) == Fast(0, 0);
    assert AfterMessages(lens, wrapAt) == Lap(0, maxMsg) && FastAfter(lens, wrapAt) == Fast(0, maxMsg);
    FastConfinedIffNotCovered(Fast(0, maxMsg), Lap(0, maxMsg), maxMsg);
  }

  // Over all runs of a ring the fast compressor refers only to live bytes
  // exactly when the ring is longer than two messages, or messages are tiny.
  lemma FastIsConfinedOverAllRuns(ring: nat, maxMsg: nat)
    requires maxMsg < ring
    ensures (forall lens, n | IsRun(lens, maxMsg) && 1 <= n <= maxMsg :: FastConfinedAfter(lens, n, ring, maxMsg))
            <==> 2 * maxMsg < ring || maxMsg < TINY
  {
    hide IsRun, FastConfinedAfter;
    if 2 * maxMsg < ring || maxMsg < TINY {
      forall lens, n | IsRun(lens, maxMsg) && 1 <= n <= maxMsg
        ensures FastConfinedAfter(lens, n, ring, maxMsg)
      {
        FastConfinedInRun(lens, n, ring, maxMsg);
      }
    } else {
      FastLeavesSmallRing(ring, maxMsg);
    }
  }

  // A block that a compressor finds in its own ring: literals are the bytes of
  // the message, and copies lie in its window, at an address with the byte
  // wanted.
  ghost predicate FastFinds(mem: seq<byte>, c: Fast, lap: Lap, n: nat, i: nat, op: Op)
    requires Room(mem, lap, n) && i < n
  {
    match op
    case Put(b) => mem[lap.off + i] == b
    case Copy(d) =>
      && FastOffers(c, lap.off, n, i, d)
      && 0 <= FastSource(c, lap.off, n, i, d) < |mem|
      && mem[FastSource(c, lap.off, n, i, d)] == mem[lap.off + i]
  }

  // What the fast compressor finds in its window is legal in every run of a
  // ring longer than two messages.
  lemma FastBlocksAreLegal(mem: seq<byte>, lens: seq<nat>, n: nat, ring: nat, maxMsg: nat, b: Block)
    requires maxMsg < ring && IsRun(lens, maxMsg) && 1 <= n <= maxMsg
    requires 2 * maxMsg < ring || maxMsg < TINY
    requires var lap := AfterMessages(lens, ring - maxMsg);
             && Room(mem, lap, n) && WellFormed(b) && |Ops(b)| == n
             && forall i :: 0 <= i < n ==> FastFinds(mem, FastAfter(lens, ring - maxMsg), lap, n, i, Ops(b)[i])
    ensures Legal(mem, AfterMessages(lens, ring - maxMsg), n, b)
  {
    hide FastOffers, FastSource, Offers, Source, FastAfter, AfterMessages, WellFormed, Ops, IsRun;
    FastConfinedInRun(lens, n, ring, maxMsg);
    var lap := AfterMessages(lens, ring - maxMsg);
    forall i | 0 <= i < n
      ensures LegalOp(mem, lap, n, i, Ops(b)[i])
    {
      assert FastFinds(mem, FastAfter(lens, ring - maxMsg), lap, n, i, Ops(b)[i]);
    }
  }

  // LZ4_streamHC_t: the prefix up to `end`, and one external segment.
  datatype HC = HC(prefixStart: nat, end: nat, dictStart: nat, extSize: nat)

  // A message that does not follow the prefix makes it the external segment.
  function HCSwitch(c: HC, src: nat): HC
    requires c.prefixStart <= c.end
  {
    if src == c.end then c else HC(src, src, c.prefixStart, c.end - c.prefixStart)
  }

  // The external segment loses what the message overwrites.
  function HCTrim(c: HC, src: nat, n: nat): HC {
    var dictEnd := c.dictStart + c.extSize;
    if src + n > c.dictStart && src < dictEnd then
      var sourceEnd := if src + n > dictEnd then dictEnd else src + n;
      var left := dictEnd - sourceEnd;
      if left < TINY then c.(extSize := 0, dictStart := c.prefixStart) else c.(extSize := left, dictStart := sourceEnd)
    else c
  }

  function HCUsed(c: HC, src: nat, n: nat): HC
    requires c.prefixStart <= c.end
  {
    HCTrim(HCSwitch(c, src), src, n)
  }

  function HCNext(c: HC, src: nat, n: nat): HC
    requires c.prefixStart <= c.end
  {
    var u := HCUsed(c, src, n);
    u.(end := src + n)
  }

  predicate HCOffers(c: HC, src: nat, n: nat, i: nat, d: nat)
    requires c.prefixStart <= c.end
  {
    var u := HCUsed(c, src, n);
    1 <= d <= src - u.prefixStart + i + u.extSize
  }

  // What a distance refers to: the prefix, or the external segment before it.
  function HCSource(c: HC, src: nat, n: nat, i: nat, d: nat): int
    requires c.prefixStart <= c.end
  {
    var u := HCUsed(c, src, n);
    if d <= src - u.prefixStart + i then src + i - d else u.dictStart + u.extSize - (d - i - (src - u.prefixStart))
  }

  // The prefix is the current lap; the external segment is what has not yet
  // been overwritten of the previous lap, unless less than four bytes of it.
  predicate HCTracks(c: HC, lap: Lap) {
    if lap.off > 0 then
      && c.prefixStart == 0 && c.end == lap.off
      && (if lap.prevEnd >= lap.off + TINY then c.extSize == lap.prevEnd - lap.off && c.dictStart == lap.off
          else c.extSize == 0)
    else if lap.prevEnd > 0 then c.prefixStart == 0 && c.end == lap.prevEnd
    else c == HC(0, 0, 0, 0)
  }

  lemma HCStep(c: HC, lap: Lap, n: nat, wrapAt: nat)
    requires HCTracks(c, lap) && n >= 1 && c.prefixStart <= c.end
    ensures HCTracks(HCNext(c, lap.off, n), Advance(lap, n, wrapAt))
  {
  }

  // The HC compressor offers exactly the live bytes, apart from a remainder of
  // the previous lap of less than four bytes.
  lemma HCOffersExactlyLive(c: HC, lap: Lap, n: nat, i: nat, d: nat)
    requires HCTracks(c, lap) && i < n && c.prefixStart <= c.end
    ensures HCOffers(c, lap.off, n, i, d) <==>
            d >= 1 && (d <= lap.off + i || (lap.prevEnd >= lap.off + n + TINY && d + n <= lap.prevEnd + i))
    ensures HCOffers(c, lap.off, n, i, d) ==> HCSource(c, lap.off, n, i, d) == Source(lap, i, d)
  {
  }

  function HCAfter(lens: seq<nat>, wrapAt: nat): (c: HC)
    ensures c.prefixStart <= c.end
    decreases |lens|
  {
    if lens == [] then HC(0, 0, 0, 0)
    else
      var before := lens[..|lens| - 1];
      HCNext(HCAfter(before, wrapAt), AfterMessages(before, wrapAt).off, lens[|lens| - 1])
  }

  lemma {:induction false} HCTracksRuns(lens: seq<nat>, wrapAt: nat)
    requires forall k :: 0 <= k < |lens| ==> lens[k] >= 1
    ensures HCTracks(HCAfter(lens, wrapAt), AfterMessages(lens, wrapAt))
    decreases |lens|
  {
    if lens == [] {
      assert AfterMessages(lens, wrapAt) == FRESH && HCAfter(lens, wrapAt) == HC(0, 0, 0, 0);
    } else {
      var before := lens[..|lens| - 1];
      HCTracksRuns(before, wrapAt);
      HCStep(HCAfter(before, wrapAt), AfterMessages(before, wrapAt), lens[|lens| - 1], wrapAt);
    }
  }

  // Over all runs of any ring, everything the HC compressor can refer to is
  // live in the ring, and where it looks for it.
  lemma HCIsConfinedOverAllRuns(lens: seq<nat>, n: nat, wrapAt: nat, i: nat, d: nat)
    requires forall k :: 0 <= k < |lens| ==> lens[k] >= 1
    requires i < n
    ensures var c, lap := HCAfter(lens, wrapAt), AfterMessages(lens, wrapAt);
            HCOffers(c, lap.off, n, i, d) ==>
              Offers(lap, n, i, d) && HCSource(c, lap.off, n, i, d) == Source(lap, i, d)
  {
    HCTracksRuns(lens, wrapAt);
    HCOffersExactlyLive(HCAfter(lens, wrapAt), AfterMessages(lens, wrapAt), n, i, d);
  }

  ghost predicate HCFinds(mem: seq<byte>, c: HC, lap: Lap, n: nat, i: nat, op: Op)
    requires Room(mem, lap, n) && i < n && c.prefixStart <= c.end
  {
    match op
    case Put(b) => mem[lap.off + i] == b
    case Copy(d) =>
      && HCOffers(c, lap.off, n, i, d)
      && 0 <= HCSource(c, lap.off, n, i, d) < |mem|
      && mem[HCSource(c, lap.off, n, i, d)] == mem[lap.off + i]
  }

  // What the HC compressor finds in its window is legal in every run of any
  // ring.
  lemma {:induction false} HCBlocksAreLegal(mem: seq<byte>, lens: seq<nat>, n: nat, wrapAt: nat, b: Block)
    requires forall k :: 0 <= k < |lens| ==> lens[k] >= 1
    requires var lap := AfterMessages(lens, wrapAt);
             && Room(mem, lap, n) && WellFormed(b) && |Ops(b)| == n
             && forall i :: 0 <= i < n ==> HCFinds(mem, HCAfter(lens, wrapAt), lap, n, i, Ops(b)[i])
    ensures Legal(mem, AfterMessages(lens, wrapAt), n, b)
  {
    hide HCOffers, HCSource, Offers, Source, HCAfter, AfterMessages, WellFormed, Ops;
    var lap := AfterMessages(lens, wrapAt);
    forall i | 0 <= i < n
      ensures LegalOp(mem, lap, n, i, Ops(b)[i])
    {
      assert HCFinds(mem, HCAfter(lens, wrapAt), lap, n, i, Ops(b)[i]);
      if Ops(b)[i].Copy? {
        HCIsConfinedOverAllRuns(lens, n, wrapAt, i, Ops(b)[i].dist);
      }
    }
  }
}
