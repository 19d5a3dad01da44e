// Reference liveness over all runs of two rings: which sizes guarantee that the
// decoder's ring still holds whatever the compressor's ring offers.
module RingSizes {
  import opened BlockFormat
  import opened Rings

  // After the messages `lens`, whatever the compressor's ring offers for the
  // next n bytes is still in the decoder's ring.
  ghost predicate Live(lens: seq<nat>, n: nat, encWrap: nat, decWrap: nat) {
    Covers(AfterMessages(lens, decWrap), AfterMessages(lens, encWrap), n)
  }

  ghost predicate AlwaysLive(encWrap: nat, decWrap: nat, maxMsg: nat) {
    forall lens, n: nat | IsRun(lens, maxMsg) && n <= maxMsg :: Live(lens, n, encWrap, decWrap)
  }

  lemma LivenessOverAllRuns(lens: seq<nat>, n: nat, encWrap: nat, decWrap: nat, maxMsg: nat)
    requires 1 <= encWrap && 1 <= decWrap && Compatible(encWrap, decWrap, maxMsg)
    requires IsRun(lens, maxMsg) && n <= maxMsg
    ensures Live(lens, n, encWrap, decWrap)
  {
    hide Covers;
    RunsAreCoupled(lens, encWrap, decWrap, maxMsg);
    CoupledCovers(AfterMessages(lens, encWrap), AfterMessages(lens, decWrap), n, encWrap, decWrap, maxMsg);
  }

  function Ones(count: nat): (lens: seq<nat>)
    ensures |lens| == count
  {
    seq(count, _ => 1)
  }

  lemma OnesAreRun(count: nat, maxMsg: nat)
    requires maxMsg >= 1
    ensures IsRun(Ones(count), maxMsg)
  {
  }

  lemma AfterOne(lens: seq<nat>, n: nat, wrapAt: nat)
    ensures AfterMessages(lens + [n], wrapAt) == Advance(AfterMessages(lens, wrapAt), n, wrapAt)
  {
    assert (lens + [n])[..|lens|] == lens;
  }

  lemma OnesStep(count: nat)
    ensures Ones(count + 1) == Ones(count) + [1]
  {
  }

  // Messages of one byte that do not complete the lap.
  lemma {:induction false} AfterOnes(lens: seq<nat>, count: nat, wrapAt: nat)
    requires AfterMessages(lens, wrapAt).off + count < wrapAt
    ensures var lap := AfterMessages(lens, wrapAt);
            AfterMessages(lens + Ones(count), wrapAt) == Lap(lap.off + count, lap.prevEnd)
    decreases count
  {
    if count == 0 {
      assert lens + Ones(0) == lens;
    } else {
      AfterOnes(lens, count - 1, wrapAt);
      AfterOne(lens + Ones(count - 1), 1, wrapAt);
      OnesStep(count - 1);
      assert lens + (Ones(count - 1) + [1]) == (lens + Ones(count - 1)) + [1];
    }
  }

  // The first lap, in messages of one byte, up to and across its end.
  lemma FirstLap(count: nat, wrapAt: nat)
    ensures count < wrapAt ==> AfterMessages(Ones(count), wrapAt) == Lap(count, 0)
    ensures count == wrapAt >= 1 ==> AfterMessages(Ones(count), wrapAt) == Lap(0, wrapAt)
  {
    assert [] + Ones(count) == Ones(count);
    if count < wrapAt {
      AfterOnes([], count, wrapAt);
    } else if count == wrapAt >= 1 {
      assert [] + Ones(count - 1) == Ones(count - 1);
      AfterOnes([], count - 1, wrapAt);
      AfterOne(Ones(count - 1), 1, wrapAt);
      OnesStep(count - 1);
    }
  }

  // The decoder has lost a distance that the encoder offers.
  lemma LostDistance(dec: Lap, enc: Lap, n: nat, i: nat, d: nat)
    requires i < n && d <= MAX_DISTANCE && Offers(enc, n, i, d) && !Reachable(dec, i, d)
    ensures !Covers(dec, enc, n)
  {
  }

  // A decoder's lap shorter than the encoder's: after one of its laps in single
  // bytes, or one byte later, the distance decWrap + 1 has gone.
  lemma ShorterLapLoses(encWrap: nat, decWrap: nat, maxMsg: nat) returns (lens: seq<nat>, n: nat)
    requires 1 <= decWrap < encWrap && 1 <= maxMsg && !Compatible(encWrap, decWrap, maxMsg)
    ensures IsRun(lens, maxMsg) && n <= maxMsg && !Live(lens, n, encWrap, decWrap)
  {
    hide AfterMessages, Ones, Covers;
    FirstLap(decWrap, decWrap);
    FirstLap(decWrap, encWrap);
    OnesAreRun(decWrap, maxMsg);
    if maxMsg >= 2 {
      lens, n := Ones(decWrap), 2;
      LostDistance(Lap(0, decWrap), Lap(decWrap, 0), 2, 1, decWrap + 1);
    } else {
      lens, n := Ones(decWrap) + [1], 1;
      AfterOne(Ones(decWrap), 1, decWrap);
      AfterOne(Ones(decWrap), 1, encWrap);
      LostDistance(Advance(Lap(0, decWrap), 1, decWrap), Lap(decWrap + 1, 0), 1, 0, decWrap + 1);
    }
  }

  // The encoder completes its lap one byte before the decoder, and both go on
  // to the last position at which the encoder still is in its second lap.
  lemma LongerLapRun(encWrap: nat, decWrap: nat) returns (lens: seq<nat>)
    requires 2 <= encWrap < decWrap
    ensures IsRun(lens, decWrap - encWrap)
    ensures AfterMessages(lens, encWrap) == Lap(encWrap - 1, decWrap - 1)
    ensures AfterMessages(lens, decWrap) == Lap(encWrap - 2, decWrap)
  {
    hide AfterMessages, Ones;
    OnesAreRun(encWrap - 1, decWrap - encWrap);
    OnesAreRun(encWrap - 2, decWrap - encWrap);
    var first := Ones(encWrap - 1);
    FirstLap(encWrap - 1, encWrap);
    FirstLap(encWrap - 1, decWrap);
    var second := first + [decWrap - encWrap];
    AfterOne(first, decWrap - encWrap, encWrap);
    AfterOne(first, decWrap - encWrap, decWrap);
    var third := second + [1];
    AfterOne(second, 1, encWrap);
    AfterOne(second, 1, decWrap);
    lens := third + Ones(encWrap - 2);
    AfterOnes(third, encWrap - 2, encWrap);
    AfterOnes(third, encWrap - 2, decWrap);
  }

  // A decoder's lap that is longer, but not by enough.
  lemma LongerLapLoses(encWrap: nat, decWrap: nat, maxMsg: nat) returns (lens: seq<nat>, n: nat)
    requires 1 <= encWrap < decWrap && !Compatible(encWrap, decWrap, maxMsg)
    ensures IsRun(lens, maxMsg) && n <= maxMsg && !Live(lens, n, encWrap, decWrap)
  {
    hide AfterMessages, Covers;
    lens := LongerLapRun(encWrap, decWrap);
    var i := decWrap - encWrap + 2;
    n := i + 1;
    LostDistance(Lap(encWrap - 2, decWrap), Lap(encWrap - 1, decWrap - 1), n, i, decWrap + 1);
  }

  // Reference liveness over all runs: for an encoder ring of encSize bytes and
  // a decoder ring of decSize bytes, both going back to the start when less
  // than a longest message fits, every distance on offer is always still held
  // by the decoder exactly when the rings have the same size, the decoder's is
  // longer by a message less two bytes, the decoder's laps reach as far as any
  // distance, or the encoder's ring has one byte more than a message.
  lemma LivenessIffCompatible(encSize: nat, decSize: nat, maxMsg: nat)
    requires 1 <= maxMsg < encSize && maxMsg < decSize
    ensures AlwaysLive(encSize - maxMsg, decSize - maxMsg, maxMsg) <==>
                 || decSize == encSize || decSize - maxMsg >= encSize - 2
                 || decSize - maxMsg >= MAX_DISTANCE || encSize == maxMsg + 1
  {
    hide IsRun, Live;
    var encWrap: nat, decWrap: nat := encSize - maxMsg, decSize - maxMsg;
    if Compatible(encWrap, decWrap, maxMsg) {
      forall lens, n: nat | IsRun(lens, maxMsg) && n <= maxMsg
        ensures Live(lens, n, encWrap, decWrap)
      {
        LivenessOverAllRuns(lens, n, encWrap, decWrap, maxMsg);
      }
    } else if decWrap < encWrap {
      var lens, n := ShorterLapLoses(encWrap, decWrap, maxMsg);
    } else {
      var lens, n := LongerLapLoses(encWrap, decWrap, maxMsg);
    }
  }

  // LZ4_DECODER_RING_BUFFER_SIZE.
  function DecoderRingBufferSize(maxMsg: nat): nat {
    65536 + 14 + maxMsg
  }

  // The three conditions that the documentation of the decoder names are each
  // enough: a ring of the recommended size, one of the encoder's size, or one
  // that is longer by a message.
  lemma DocumentedSizesAreLive(encSize: nat, decSize: nat, maxMsg: nat)
    requires 1 <= maxMsg < encSize && maxMsg < decSize
    requires decSize >= DecoderRingBufferSize(maxMsg) || decSize == encSize || decSize >= encSize + maxMsg
    ensures AlwaysLive(encSize - maxMsg, decSize - maxMsg, maxMsg)
  {
    LivenessIffCompatible(encSize, decSize, maxMsg);
  }
}
