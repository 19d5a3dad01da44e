// Ring buffers on both sides of a stream: which part of the history a ring
// still holds, what the compressor may refer to, and what the decoder can
// still read.
module Rings {
  import opened Wrappers
  import opened Bytes
  import opened History
  import opened BlockFormat
  import opened StreamDecode

  // The next free position of a ring and the end of its previous lap; 0 when
  // there has been no previous lap.
  datatype Lap = Lap(off: nat, prevEnd: nat)

  const FRESH: Lap := Lap(0, 0)

  // The ring `mem` holds the end of the history `h`: the current lap fills
  // [0, off), and [lo, prevEnd) is left over from the previous lap. What older
  // laps left beyond prevEnd does not count.
  ghost predicate Holds(mem: seq<byte>, lap: Lap, h: seq<byte>, lo: nat) {
    && lap.off <= |mem| && lap.prevEnd <= |mem|
    && lap.off + lap.prevEnd <= |h|
    && (lap.prevEnd == 0 ==> lap.off == |h|)
    && mem[..lap.off] == h[|h| - lap.off..]
    && (lo < lap.prevEnd ==>
          mem[lo..lap.prevEnd] == h[|h| - lap.off - lap.prevEnd + lo..|h| - lap.off])
  }

  lemma HoldsAt(mem: seq<byte>, lap: Lap, h: seq<byte>, lo: nat, a: nat)
    requires Holds(mem, lap, h, lo)
    ensures a < lap.off ==> mem[a] == h[|h| - lap.off + a]
    ensures lo <= a < lap.prevEnd ==> mem[a] == h[|h| - lap.off - lap.prevEnd + a]
  {
    if a < lap.off {
      assert mem[..lap.off][a] == h[|h| - lap.off..][a];
    }
    if lo <= a < lap.prevEnd {
      assert mem[lo..lap.prevEnd][a - lo] == h[|h| - lap.off - lap.prevEnd + lo..|h| - lap.off][a - lo];
    }
  }

  // The position a copy of distance d reads from, as byte i of a message that
  // starts at lap.off: in the current lap, or else counted back from prevEnd.
  function Source(lap: Lap, i: nat, d: nat): int {
    if d <= lap.off + i then lap.off + i - d else lap.prevEnd - (d - lap.off - i)
  }

  // The distances that byte i of an n-byte message may use: the current lap
  // up to that byte, or the part of the previous lap that lies behind the
  // whole message.
  predicate Offers(lap: Lap, n: nat, i: nat, d: nat) {
    d >= 1 && (d <= lap.off + i || d + n <= lap.prevEnd + i)
  }

  // In addresses: what is offered has been written in this lap, or lies behind
  // the message.
  lemma OffersIffLive(lap: Lap, n: nat, i: nat, d: nat)
    requires i < n
    ensures Offers(lap, n, i, d) <==>
            var a := Source(lap, i, d);
            d >= 1 && if d <= lap.off + i then 0 <= a < lap.off + i else lap.off + n <= a < lap.prevEnd
  {
  }

  predicate Room(mem: seq<byte>, lap: Lap, n: nat) {
    lap.off + n <= |mem| && lap.prevEnd <= |mem|
  }

  // Instruction i of a block for the message mem[off..off+n]: a literal is the
  // message byte, a copy refers to a live position holding the same byte.
  predicate LegalOp(mem: seq<byte>, lap: Lap, n: nat, i: nat, op: Op)
    requires Room(mem, lap, n) && i < n
  {
    match op
    case Put(b) => mem[lap.off + i] == b
    case Copy(d) => Offers(lap, n, i, d) && mem[Source(lap, i, d)] == mem[lap.off + i]
  }

  // All that is assumed of a compressor: its block spells the message using
  // bytes that are live in its own ring.
  ghost predicate Legal(mem: seq<byte>, lap: Lap, n: nat, b: Block)
    requires Room(mem, lap, n)
  {
    && WellFormed(b)
    && |Ops(b)| == n
    && forall i :: 0 <= i < n ==> LegalOp(mem, lap, n, i, Ops(b)[i])
  }

  // The one byte behind the message may have been overwritten by a NUL when
  // the message itself has none: no copy can want it.
  ghost predicate LiveBehind(mem: seq<byte>, lap: Lap, n: nat, lo: nat)
    requires Room(mem, lap, n)
  {
    || lo <= lap.off + n
    || (lo == lap.off + n + 1
        && (lap.off + n < lap.prevEnd ==> mem[lap.off + n] == 0)
        && 0 !in mem[lap.off..lap.off + n])
  }

  // A legal block means its message, after the complete history.
  lemma LegalBlockExpands(mem: seq<byte>, lap: Lap, h: seq<byte>, n: nat, lo: nat, b: Block)
    requires Room(mem, lap, n)
    requires Holds(mem, lap, h, lo) && LiveBehind(mem, lap, n, lo)
    requires Legal(mem, lap, n, b)
    ensures Expand(h, Ops(b)) == Some(mem[lap.off..lap.off + n])
  {
    var m := mem[lap.off..lap.off + n];
    forall i | 0 <= i < n
      ensures Yields(h, m, i, Ops(b)[i])
    {
      assert LegalOp(mem, lap, n, i, Ops(b)[i]);
      if Ops(b)[i].Copy? {
        var d := Ops(b)[i].dist;
        var a := Source(lap, i, d);
        HoldsAt(mem, lap, h, lo, a);
        if d <= i {
          assert (h + m)[|h| + i - d] == m[i - d];
        } else if d > lap.off + i {
          assert m[i] in m && mem[a] == m[i];
          assert a >= lo;
        }
      }
    }
    ExpandIffDescribes(h, Ops(b), m);
  }

  // The context of the decoder after writing lap.off bytes of this lap.
  predicate Tracks(c: Context, lap: Lap) {
    if lap.off == 0 then
      if lap.prevEnd == 0 then c == RESET
      else c.prefixEnd == lap.prevEnd && c.prefixSize == lap.prevEnd
    else
      && c.prefixEnd == lap.off && c.prefixSize == lap.off
      && c.extDict == 0 && c.extDictSize == lap.prevEnd
  }

  // A distance the decoder can still serve at byte i of a message.
  predicate Reachable(lap: Lap, i: nat, d: nat) {
    d <= lap.off + i || d <= lap.prevEnd
  }

  ghost predicate AllReachable(lap: Lap, ops: seq<Op>) {
    forall i :: 0 <= i < |ops| && ops[i].Copy? ==> ops[i].dist <= MAX_DISTANCE && Reachable(lap, i, ops[i].dist)
  }

  // A reachable copy reads the byte of the history it asks for, from the
  // current lap or from the part of the previous one not yet overwritten.
  lemma CopyReadsHistory(mem: seq<byte>, lap: Lap, c: Context, h: seq<byte>, i: nat, d: nat)
    requires lap.off + i < |mem|
    requires Holds(mem, lap, h, lap.off) && Tracks(c, lap)
    requires 1 <= d <= |h| + i && d <= MAX_DISTANCE && Reachable(lap, i, d)
    ensures ViewAt(c, lap.off).low <= lap.off
    ensures ReadsHistory(mem, ViewAt(c, lap.off), lap.off, h, i, Copy(d))
  {
    var v := ViewAt(c, lap.off);
    var a := Source(lap, i, d);
    HoldsAt(mem, lap, h, lap.off, a);
    assert Locate(v, lap.off + i, d) == Some(a);
  }

  // The decoder serves the current lap and the whole of the previous one, and
  // rejects every distance beyond.
  lemma RejectsBeyondLaps(lap: Lap, c: Context, i: nat, d: nat)
    requires Tracks(c, lap) && c.prefixSize <= c.prefixEnd && d <= MAX_DISTANCE
    ensures ViewAt(c, lap.off).low <= lap.off
    ensures Locate(ViewAt(c, lap.off), lap.off + i, d).Some? <==> 1 <= d <= lap.off + i + lap.prevEnd
  {
  }

  // Decoding in the ring, reading from the current or the previous lap while
  // overwriting the previous one, is decoding over the complete history.
  lemma {:induction false} RingReplayRefinesExpand(mem: seq<byte>, lap: Lap, c: Context, h: seq<byte>, ops: seq<Op>)
    requires lap.off + |ops| <= |mem| && c.Valid(|mem|)
    requires Holds(mem, lap, h, lap.off) && Tracks(c, lap)
    requires Expand(h, ops).Some? && AllReachable(lap, ops)
    ensures Replay(mem, ViewAt(c, lap.off), lap.off, ops) == Some(Splice(mem, lap.off, Expand(h, ops).value))
  {
    var v := ViewAt(c, lap.off);
    var m := Expand(h, ops).value;
    assert Describes(h, ops, m) by {
      ExpandIffDescribes(h, ops, m);
    }
    forall i | 0 <= i < |ops|
      ensures ReadsHistory(mem, v, lap.off, h, i, ops[i])
    {
      assert Yields(h, m, i, ops[i]);
      if ops[i].Copy? {
        CopyReadsHistory(mem, lap, c, h, i, ops[i].dist);
      }
    }
    ReplayRefinesExpand(mem, v, lap.off, h, ops);
  }

  // The lap after one more message, for a ring that wraps at `wrapAt`.
  function Advance(lap: Lap, n: nat, wrapAt: nat): Lap {
    if lap.off + n >= wrapAt then Lap(0, lap.off + n) else Lap(lap.off + n, lap.prevEnd)
  }

  lemma AdvanceCases(lap: Lap, n: nat, wrapAt: nat)
    ensures lap.off + n >= wrapAt ==> Advance(lap, n, wrapAt) == Lap(0, lap.off + n)
    ensures lap.off + n < wrapAt ==> Advance(lap, n, wrapAt) == Lap(lap.off + n, lap.prevEnd)
  {
  }

  // Laps end at or above wrapAt, and less than one message further.
  predicate InBounds(lap: Lap, wrapAt: nat, maxMsg: nat) {
    lap.off < wrapAt && (lap.prevEnd == 0 || wrapAt <= lap.prevEnd < wrapAt + maxMsg)
  }

  // The message is in place, the history not yet longer: what is left of the
  // previous lap lies behind the message.
  lemma HoldsOverwritten(mem: seq<byte>, lap: Lap, h: seq<byte>, msg: seq<byte>, tail: seq<byte>)
    requires Holds(mem, lap, h, lap.off + |tail|)
    requires lap.off + |msg| + |tail| <= |mem|
    ensures Holds(Splice(mem, lap.off, msg + tail), lap, h, lap.off + |msg| + |tail|)
  {
    var mem1 := Splice(mem, lap.off, msg + tail);
    var lo, lo1 := lap.off + |tail|, lap.off + |msg| + |tail|;
    assert mem1[..lap.off] == mem[..lap.off];
    if lo1 < lap.prevEnd {
      assert mem1[lo1..lap.prevEnd] == mem[lo1..lap.prevEnd] == mem[lo..lap.prevEnd][|msg|..];
      assert h[|h| - lap.off - lap.prevEnd + lo1..|h| - lap.off]
          == h[|h| - lap.off - lap.prevEnd + lo..|h| - lap.off][|msg|..];
    }
  }

  // The message becomes part of the current lap, and of the history.
  lemma HoldsMessage(mem: seq<byte>, lap: Lap, h: seq<byte>, msg: seq<byte>, lo: nat)
    requires Holds(mem, lap, h, lo) && lap.off + |msg| <= |mem| && mem[lap.off..lap.off + |msg|] == msg
    ensures Holds(mem, Lap(lap.off + |msg|, lap.prevEnd), h + msg, lo)
  {
    var h1 := h + msg;
    var end := lap.off + |msg|;
    assert mem[..end] == mem[..lap.off] + msg;
    assert h1[|h1| - end..] == h[|h| - lap.off..] + msg;
    if lo < lap.prevEnd {
      assert h1[|h| - lap.off - lap.prevEnd + lo..|h| - lap.off]
          == h[|h| - lap.off - lap.prevEnd + lo..|h| - lap.off];
    }
  }

  // Going back to the start turns the current lap into the previous one.
  lemma HoldsWrapped(mem: seq<byte>, lap: Lap, h: seq<byte>, lo: nat, lo1: nat)
    requires Holds(mem, lap, h, lo) && lap.off > 0
    ensures Holds(mem, Lap(0, lap.off), h, lo1)
  {
    if lo1 < lap.off {
      assert mem[lo1..lap.off] == mem[..lap.off][lo1..];
      assert h[|h| - lap.off..][lo1..] == h[|h| - lap.off + lo1..|h|];
    }
  }

  // One message later: the message and `tail` behind it have been written.
  lemma HoldsNext(mem: seq<byte>, lap: Lap, h: seq<byte>, msg: seq<byte>, tail: seq<byte>, wrapAt: nat)
    requires Holds(mem, lap, h, lap.off + |tail|) && |msg| >= 1
    requires lap.off + |msg| + |tail| <= |mem|
    ensures var next := Advance(lap, |msg|, wrapAt);
            Holds(Splice(mem, lap.off, msg + tail), next, h + msg, next.off + |tail|)
  {
    hide Holds;
    var mem1 := Splice(mem, lap.off, msg + tail);
    var end := lap.off + |msg|;
    HoldsOverwritten(mem, lap, h, msg, tail);
    assert mem1[lap.off..end] == msg;
    HoldsMessage(mem1, lap, h, msg, end + |tail|);
    HoldsWrapped(mem1, Lap(end, lap.prevEnd), h + msg, end + |tail|, |tail|);
  }

  // Rings that move together, a decoder whose laps are long enough for whatever
  // the encoder can still offer or for any distance, or an encoder that goes
  // back to the start after every message.
  predicate Compatible(encWrap: nat, decWrap: nat, maxMsg: nat) {
    encWrap == decWrap || decWrap + 2 >= encWrap + maxMsg || decWrap >= MAX_DISTANCE || encWrap == 1
  }

  // The two rings at the same moment of a run.
  predicate Coupled(enc: Lap, dec: Lap, encWrap: nat, decWrap: nat, maxMsg: nat) {
    && InBounds(enc, encWrap, maxMsg)
    && InBounds(dec, decWrap, maxMsg)
    && (encWrap == decWrap ==> enc == dec)
    && (dec.prevEnd == 0 ==> enc.off + enc.prevEnd <= dec.off)
    && (encWrap == 1 ==> enc.prevEnd <= if dec.off == 0 then dec.prevEnd else dec.off)
  }

  lemma AdvanceCoupled(enc: Lap, dec: Lap, n: nat, encWrap: nat, decWrap: nat, maxMsg: nat)
    requires Coupled(enc, dec, encWrap, decWrap, maxMsg) && 1 <= n <= maxMsg
    ensures Coupled(Advance(enc, n, encWrap), Advance(dec, n, decWrap), encWrap, decWrap, maxMsg)
  {
  }

  // Whatever distance the encoder's ring offers for the next n bytes, the
  // decoder's ring serves.
  ghost predicate Covers(dec: Lap, enc: Lap, n: nat) {
    forall i, d: nat :: 0 <= i < n && d <= MAX_DISTANCE && Offers(enc, n, i, d) ==> Reachable(dec, i, d)
  }

  lemma CoupledCovers(enc: Lap, dec: Lap, n: nat, encWrap: nat, decWrap: nat, maxMsg: nat)
    requires Coupled(enc, dec, encWrap, decWrap, maxMsg) && Compatible(encWrap, decWrap, maxMsg)
    requires n <= maxMsg
    ensures Covers(dec, enc, n)
  {
  }

  // Rings of the same size in the same lap cover each other.
  lemma SameLapCovers(lap: Lap, n: nat)
    ensures Covers(lap, lap, n)
  {
  }

  // The lap of a ring after messages of the given lengths.
  function AfterMessages(lens: seq<nat>, wrapAt: nat): Lap
    decreases |lens|
  {
    if lens == [] then FRESH
    else Advance(AfterMessages(lens[..|lens| - 1], wrapAt), lens[|lens| - 1], wrapAt)
  }

  // Messages of 1 to maxMsg bytes.
  ghost predicate IsRun(lens: seq<nat>, maxMsg: nat) {
    forall k :: 0 <= k < |lens| ==> 1 <= lens[k] <= maxMsg
  }

  lemma {:induction false} RunsAreCoupled(lens: seq<nat>, encWrap: nat, decWrap: nat, maxMsg: nat)
    requires 1 <= encWrap && 1 <= decWrap && IsRun(lens, maxMsg)
    ensures Coupled(AfterMessages(lens, encWrap), AfterMessages(lens, decWrap), encWrap, decWrap, maxMsg)
    decreases |lens|
  {
    if lens == [] {
      assert AfterMessages(lens, encWrap) == FRESH == AfterMessages(lens, decWrap);
    } else {
      var before := lens[..|lens| - 1];
      RunsAreCoupled(before, encWrap, decWrap, maxMsg);
      AdvanceCoupled(AfterMessages(before, encWrap), AfterMessages(before, decWrap),
                     lens[|lens| - 1], encWrap, decWrap, maxMsg);
    }
  }

  // A legal block is decoded in the decoder's ring to its message.
  lemma {:induction false} MessageDecodes(
      mem: seq<byte>, enc: Lap, n: nat, lo: nat, b: Block,
      dmem: seq<byte>, dec: Lap, c: Context, h: seq<byte>)
    requires Room(mem, enc, n) && Holds(mem, enc, h, lo) && LiveBehind(mem, enc, n, lo)
    requires Legal(mem, enc, n, b)
    requires Holds(dmem, dec, h, dec.off) && Tracks(c, dec)
    requires c.Valid(|dmem|) && dec.off + n <= |dmem|
    requires Covers(dec, enc, n)
    ensures Replay(dmem, ViewAt(c, dec.off), dec.off, Ops(b)) ==
            Some(Splice(dmem, dec.off, mem[enc.off..enc.off + n]))
  {
    LegalBlockExpands(mem, enc, h, n, lo, b);
    OpsDistances(b);
    forall i | 0 <= i < |Ops(b)| && Ops(b)[i].Copy?
      ensures Reachable(dec, i, Ops(b)[i].dist)
    {
      assert LegalOp(mem, enc, n, i, Ops(b)[i]);
    }
    RingReplayRefinesExpand(dmem, dec, c, h, Ops(b));
  }

  // The call of the decoder for that block.
  lemma {:induction false} DecompressIsReplay(b: Block, mem: seq<byte>, c: Context, dest: nat, cap: nat, after: seq<byte>)
    requires WellFormed(b) && c.Valid(|mem|) && dest + cap <= |mem| && 1 <= |Ops(b)| <= cap
    requires Replay(mem, ViewAt(c, dest), dest, Ops(b)) == Some(after)
    ensures Decompress(c, mem, Encode(b), dest, cap) == Decoded(|Ops(b)|, after, After(c, dest, |Ops(b)|))
  {
    ParseRoundTrip(b);
  }

  // However the decoder stands, a block it accepts yields as many bytes as the
  // block has instructions.
  lemma DecompressedLength(b: Block, mem: seq<byte>, c: Context, dest: nat, cap: nat)
    requires WellFormed(b) && c.Valid(|mem|) && dest + cap <= |mem|
    ensures var r := Decompress(c, mem, Encode(b), dest, cap); r.Decoded? ==> r.n == |Ops(b)|
  {
    ParseRoundTrip(b);
  }

  // The decoder's bookkeeping follows its ring.
  lemma TracksNext(c: Context, lap: Lap, n: nat, wrapAt: nat)
    requires Tracks(c, lap) && c.prefixSize <= c.prefixEnd && n >= 1
    ensures Tracks(After(c, lap.off, n), Advance(lap, n, wrapAt))
  {
  }

  // Both sides of a stream at the same moment: each ring holds the end of the
  // history `h`, as far as its own laps reach. Behind its offset the encoder's
  // ring may have `gap` spoilt bytes.
  ghost predicate InStep(mem: seq<byte>, enc: Lap, gap: nat, dmem: seq<byte>, dec: Lap, c: Context, h: seq<byte>) {
    && Holds(mem, enc, h, enc.off + gap)
    && Holds(dmem, dec, h, dec.off)
    && c.Valid(|dmem|) && Tracks(c, dec)
  }

  // Before the first message both rings are in step, whatever they contain.
  lemma StartsInStep(mem: seq<byte>, gap: nat, dmem: seq<byte>)
    ensures InStep(mem, FRESH, gap, dmem, FRESH, RESET, [])
  {
    assert mem[..0] == [] && dmem[..0] == [];
  }

  // One message through both rings: the decoder writes it.
  lemma MessageIsDecoded(
      mem: seq<byte>, enc: Lap, msg: seq<byte>, tail: seq<byte>, b: Block,
      dmem: seq<byte>, dec: Lap, c: Context, cap: nat, h: seq<byte>)
    requires InStep(mem, enc, |tail|, dmem, dec, c, h)
    requires enc.off + |msg| + |tail| <= |mem|
    requires tail == [] || (tail == [0] && 0 !in msg)
    requires Legal(Splice(mem, enc.off, msg + tail), enc, |msg|, b)
    requires 1 <= |msg| <= cap && dec.off + cap <= |dmem| && Covers(dec, enc, |msg|)
    ensures Decompress(c, dmem, Encode(b), dec.off, cap) ==
            Decoded(|msg|, Splice(dmem, dec.off, msg), After(c, dec.off, |msg|))
  {
    var mem1 := Splice(mem, enc.off, msg + tail);
    HoldsOverwritten(mem, enc, h, msg, tail);
    assert mem1[enc.off..enc.off + |msg|] == msg;
    assert LiveBehind(mem1, enc, |msg|, enc.off + |msg| + |tail|);
    MessageDecodes(mem1, enc, |msg|, enc.off + |msg| + |tail|, b, dmem, dec, c, h);
    DecompressIsReplay(b, dmem, c, dec.off, cap, Splice(dmem, dec.off, msg));
  }

  // One message through both rings: both are in step again.
  lemma MessageKeepsStep(
      mem: seq<byte>, enc: Lap, msg: seq<byte>, tail: seq<byte>,
      dmem: seq<byte>, dec: Lap, c: Context, h: seq<byte>, encWrap: nat, decWrap: nat)
    requires InStep(mem, enc, |tail|, dmem, dec, c, h)
    requires enc.off + |msg| + |tail| <= |mem|
    requires 1 <= |msg| && dec.off + |msg| <= |dmem|
    ensures InStep(Splice(mem, enc.off, msg + tail), Advance(enc, |msg|, encWrap), |tail|,
                   Splice(dmem, dec.off, msg), Advance(dec, |msg|, decWrap), After(c, dec.off, |msg|), h + msg)
  {
    HoldsNext(mem, enc, h, msg, tail, encWrap);
    HoldsNext(dmem, dec, h, msg, [], decWrap);
    assert msg + [] == msg;
    TracksNext(c, dec, |msg|, decWrap);
  }
}
