// The LZ4 block format: sequences of literals and matches, written as a token
// byte, 255-terminated length extensions and little-endian distances.
module BlockFormat {
  import opened Wrappers
  import opened Bytes
  import opened History

  const MIN_MATCH: nat := 4
  const MAX_DISTANCE: nat := 65535
  const LEN_MASK: nat := 15

  // A run of literals followed by a match.
  datatype Sequence = Sequence(lits: seq<byte>, dist: nat, mlen: nat)

  // A block ends with a run of literals, possibly empty, without a match.
  datatype Block = Block(seqs: seq<Sequence>, last: seq<byte>)

  predicate WellFormedSequence(s: Sequence) {
    1 <= s.dist <= MAX_DISTANCE && s.mlen >= MIN_MATCH
  }

  predicate WellFormed(b: Block) {
    forall k :: 0 <= k < |b.seqs| ==> WellFormedSequence(b.seqs[k])
  }

  function Literals(bytes: seq<byte>): (ops: seq<Op>)
    ensures |ops| == |bytes|
    ensures forall i :: 0 <= i < |ops| ==> ops[i] == Put(bytes[i])
  {
    seq(|bytes|, i requires 0 <= i < |bytes| => Put(bytes[i]))
  }

  function Copies(dist: nat, count: nat): (ops: seq<Op>)
    ensures |ops| == count
    ensures forall i :: 0 <= i < |ops| ==> ops[i] == Copy(dist)
  {
    seq(count, _ => Copy(dist))
  }

  function SequenceOps(seqs: seq<Sequence>): seq<Op> {
    if seqs == [] then []
    else Literals(seqs[0].lits) + Copies(seqs[0].dist, seqs[0].mlen) + SequenceOps(seqs[1..])
  }

  // The byte-level instructions of a block.
  function Ops(b: Block): seq<Op> {
    SequenceOps(b.seqs) + Literals(b.last)
  }

  function Nibble(len: nat): (n: nat)
    ensures n <= LEN_MASK
  {
    if len < LEN_MASK then len else LEN_MASK
  }

  // A length extension: as many 255 as fit, then the remainder.
  function Run(left: nat): seq<byte> {
    if left < 255 then [left] else [255] + Run(left - 255)
  }

  function Extension(len: nat): seq<byte> {
    if len < LEN_MASK then [] else Run(len - LEN_MASK)
  }

  function EncodeSequence(s: Sequence): seq<byte>
    requires WellFormedSequence(s)
  {
    [16 * Nibble(|s.lits|) + Nibble(s.mlen - MIN_MATCH)] + Extension(|s.lits|) + s.lits
    + Le16(s.dist) + Extension(s.mlen - MIN_MATCH)
  }

  function EncodeLast(last: seq<byte>): seq<byte> {
    [16 * Nibble(|last|)] + Extension(|last|) + last
  }

  function Encode(b: Block): (r: seq<byte>)
    requires WellFormed(b)
    ensures |r| > 0
    decreases |b.seqs|
  {
    if b.seqs == [] then EncodeLast(b.last)
    else EncodeSequence(b.seqs[0]) + Encode(Block(b.seqs[1..], b.last))
  }

  // Read a length extension on top of `sofar`; None when the input ends first.
  function ReadRun(sofar: nat, input: seq<byte>): (r: Option<(nat, seq<byte>)>)
    ensures r.Some? ==> |r.value.1| < |input|
    decreases |input|
  {
    if input == [] then None
    else if input[0] == 255 then ReadRun(sofar + 255, input[1..])
    else Some((sofar + input[0], input[1..]))
  }

  function ReadLength(nibble: nat, input: seq<byte>): (r: Option<(nat, seq<byte>)>)
    ensures r.Some? ==> |r.value.1| <= |input|
  {
    if nibble == LEN_MASK then ReadRun(LEN_MASK, input) else Some((nibble, input))
  }

  // The literals at the start of a sequence, and what follows them.
  function ReadLiterals(input: seq<byte>): (r: Option<(seq<byte>, seq<byte>)>)
    requires input != []
    ensures r.Some? ==> |r.value.1| < |input|
  {
    var length := ReadLength(input[0] / 16, input[1..]);
    if length.None? || length.value.0 > |length.value.1| then None
    else Some((length.value.1[..length.value.0], length.value.1[length.value.0..]))
  }

  // Distance and length of a match, and what follows them.
  function ReadMatch(token: byte, input: seq<byte>): (r: Option<(nat, nat, seq<byte>)>)
    ensures r.Some? ==> r.value.0 <= MAX_DISTANCE && |r.value.2| < |input|
  {
    if |input| < 2 then None
    else
      var length := ReadLength(token % 16, input[2..]);
      if length.None? then None
      else Some((FromLe16(input[..2]), length.value.0 + MIN_MATCH, length.value.1))
  }

  function Prepend(s: Sequence, tail: Option<Block>): Option<Block> {
    match tail
    case None => None
    case Some(b) => Some(Block([s] + b.seqs, b.last))
  }

  // The decoder's reading of a block: the run of literals that uses up the
  // input is the last one.
  function Parse(input: seq<byte>): (r: Option<Block>)
    ensures r.Some? ==> forall k :: 0 <= k < |r.value.seqs| ==> r.value.seqs[k].dist <= MAX_DISTANCE
    decreases |input|
  {
    if input == [] then None
    else
      var literals := ReadLiterals(input);
      if literals.None? then None
      else if literals.value.1 == [] then Some(Block([], literals.value.0))
      else
        var found := ReadMatch(input[0], literals.value.1);
        if found.None? then None
        else
          Prepend(Sequence(literals.value.0, found.value.0, found.value.1), Parse(found.value.2))
  }

  lemma {:induction false} ReadRunRoundTrip(sofar: nat, left: nat, tail: seq<byte>)
    ensures ReadRun(sofar, Run(left) + tail) == Some((sofar + left, tail))
    decreases left
  {
    if left < 255 {
      assert (Run(left) + tail)[1..] == tail;
    } else {
      ReadRunRoundTrip(sofar + 255, left - 255, tail);
      assert (Run(left) + tail)[1..] == Run(left - 255) + tail;
    }
  }

  lemma ReadLengthRoundTrip(len: nat, tail: seq<byte>)
    ensures ReadLength(Nibble(len), Extension(len) + tail) == Some((len, tail))
  {
    if len < LEN_MASK {
      assert Extension(len) + tail == tail;
    } else {
      ReadRunRoundTrip(LEN_MASK, len - LEN_MASK, tail);
    }
  }

  lemma ReadLiteralsRoundTrip(input: seq<byte>, lits: seq<byte>, tail: seq<byte>)
    requires input != [] && input[0] / 16 == Nibble(|lits|)
    requires input[1..] == Extension(|lits|) + (lits + tail)
    ensures ReadLiterals(input) == Some((lits, tail))
  {
    ReadLengthRoundTrip(|lits|, lits + tail);
    assert (lits + tail)[..|lits|] == lits;
    assert (lits + tail)[|lits|..] == tail;
  }

  lemma ReadMatchRoundTrip(token: byte, dist: nat, len: nat, tail: seq<byte>)
    requires dist <= MAX_DISTANCE && token % 16 == Nibble(len)
    ensures ReadMatch(token, Le16(dist) + (Extension(len) + tail)) == Some((dist, len + MIN_MATCH, tail))
  {
    var input := Le16(dist) + (Extension(len) + tail);
    assert input[..2] == Le16(dist);
    assert input[2..] == Extension(len) + tail;
    Le16RoundTrip(dist);
    ReadLengthRoundTrip(len, tail);
  }

  lemma ParseLast(last: seq<byte>)
    ensures Parse(EncodeLast(last)) == Some(Block([], last))
  {
    var input := EncodeLast(last);
    assert input[1..] == Extension(|last|) + (last + []);
    ReadLiteralsRoundTrip(input, last, []);
  }

  lemma SplitSequence(s: Sequence, tail: seq<byte>)
    requires WellFormedSequence(s)
    ensures var input := EncodeSequence(s) + tail;
            && input[0] == 16 * Nibble(|s.lits|) + Nibble(s.mlen - MIN_MATCH)
            && input[1..] == Extension(|s.lits|) + (s.lits + (Le16(s.dist) + (Extension(s.mlen - MIN_MATCH) + tail)))
  {
  }

  // Literals and match of a sequence that starts the input.
  lemma SequenceParts(input: seq<byte>, s: Sequence, tail: seq<byte>)
    requires WellFormedSequence(s)
    requires input != [] && input[0] == 16 * Nibble(|s.lits|) + Nibble(s.mlen - MIN_MATCH)
    requires input[1..] == Extension(|s.lits|) + (s.lits + (Le16(s.dist) + (Extension(s.mlen - MIN_MATCH) + tail)))
    ensures var afterLits := Le16(s.dist) + (Extension(s.mlen - MIN_MATCH) + tail);
            && afterLits != [] && ReadLiterals(input) == Some((s.lits, afterLits))
            && ReadMatch(input[0], afterLits) == Some((s.dist, s.mlen, tail))
  {
    hide ReadLiterals, ReadMatch;
    var len := s.mlen - MIN_MATCH;
    var afterLits := Le16(s.dist) + (Extension(len) + tail);
    assert |afterLits| >= 2;
    ReadLiteralsRoundTrip(input, s.lits, afterLits);
    ReadMatchRoundTrip(input[0], s.dist, len, tail);
  }

  lemma ParseSequence(input: seq<byte>, s: Sequence, tail: seq<byte>)
    requires WellFormedSequence(s)
    requires input != [] && input[0] == 16 * Nibble(|s.lits|) + Nibble(s.mlen - MIN_MATCH)
    requires input[1..] == Extension(|s.lits|) + (s.lits + (Le16(s.dist) + (Extension(s.mlen - MIN_MATCH) + tail)))
    ensures Parse(input) == Prepend(s, Parse(tail))
  {
    hide ReadLiterals, ReadMatch;
    SequenceParts(input, s, tail);
  }

  // Every well-formed block is parsed back from its bytes.
  lemma {:induction false} ParseRoundTrip(b: Block)
    requires WellFormed(b)
    ensures Parse(Encode(b)) == Some(b)
    decreases |b.seqs|
  {
    hide Parse, EncodeSequence, EncodeLast;
    if b.seqs == [] {
      ParseLast(b.last);
    } else {
      var tail := Block(b.seqs[1..], b.last);
      ParseRoundTrip(tail);
      SplitSequence(b.seqs[0], Encode(tail));
      ParseSequence(Encode(b), b.seqs[0], Encode(tail));
      assert [b.seqs[0]] + tail.seqs == b.seqs;
    }
  }

  // A length extension is 255 as often as it fits, and then what is left.
  lemma {:induction false} RunBytes(left: nat)
    ensures Run(left) == seq(left / 255, _ => 255) + [left % 255]
    decreases left
  {
    if left < 255 {
      assert seq(left / 255, _ => 255 as byte) == [];
    } else {
      RunBytes(left - 255);
      assert (left - 255) / 255 == left / 255 - 1;
      assert seq(left / 255, _ => 255 as byte) == [255] + seq((left - 255) / 255, _ => 255 as byte);
    }
  }

  // The bytes of a length of which the token holds `len` up to 15.
  function LengthBytes(len: nat): seq<byte> {
    if len < 15 then [] else seq((len - 15) / 255, _ => 255) + [(len - 15) % 255]
  }

  // The bytes of a sequence, one by one: the token has the number of literals
  // in its high and the length of the match, less four, in its low half; the
  // distance follows the literals with its low byte first.
  lemma SequenceBytes(s: Sequence)
    requires WellFormedSequence(s)
    ensures EncodeSequence(s) ==
            [16 * Min(|s.lits|, 15) + Min(s.mlen - 4, 15)] + LengthBytes(|s.lits|) + s.lits
            + [s.dist % 256, s.dist / 256] + LengthBytes(s.mlen - 4)
  {
    hide Extension, LengthBytes;
    ExtensionBytes(|s.lits|);
    ExtensionBytes(s.mlen - 4);
  }

  lemma ExtensionBytes(len: nat)
    ensures Extension(len) == LengthBytes(len)
  {
    if len >= 15 {
      RunBytes(len - 15);
    }
  }

  // Whatever is parsed is well-formed, but for distances of zero.
  lemma {:induction false} ParsedIsWellFormed(input: seq<byte>)
    requires Parse(input).Some?
    ensures var b := Parse(input).value;
            WellFormed(b) <==> forall k :: 0 <= k < |b.seqs| ==> b.seqs[k].dist != 0
    decreases |input|
  {
    hide ReadLiterals, ReadMatch;
    var literals := ReadLiterals(input).value;
    if literals.1 == [] {
      assert Parse(input).value.seqs == [];
    } else {
      var found := ReadMatch(input[0], literals.1).value;
      ParsedIsWellFormed(found.2);
      MatchLength(input[0], literals.1);
      var seqs, rest := Parse(input).value.seqs, Parse(found.2).value.seqs;
      assert seqs == [Sequence(literals.0, found.0, found.1)] + rest;
      assert forall k :: 0 <= k < |rest| ==> rest[k] == seqs[k + 1];
    }
  }

  lemma MatchLength(token: byte, input: seq<byte>)
    ensures var found := ReadMatch(token, input); found.Some? ==> found.value.1 >= MIN_MATCH
  {
  }

  // LZ4_MAX_INPUT_SIZE, the longest message a compressor takes.
  const MAX_INPUT_SIZE: nat := 0x7E00_0000

  // LZ4_COMPRESSBOUND of a size up to that.
  function CompressBound(size: nat): nat {
    size + size / 255 + 16
  }

  lemma {:induction false} RunLength(left: nat)
    ensures |Run(left)| == 1 + left / 255
    decreases left
  {
    if left < 255 {
      assert Run(left) == [left];
    } else {
      RunLength(left - 255);
    }
  }

  // A sequence costs at most its own length and one byte in 255 more.
  lemma SequenceCost(s: Sequence)
    requires WellFormedSequence(s)
    ensures |EncodeSequence(s)| <= |s.lits| + s.mlen + (|s.lits| + s.mlen) / 255
  {
    var m := s.mlen - MIN_MATCH;
    if |s.lits| >= LEN_MASK {
      RunLength(|s.lits| - LEN_MASK);
    }
    if m >= LEN_MASK {
      RunLength(m - LEN_MASK);
    }
  }

  // No block is longer than the compress bound of the message it stands for.
  lemma {:induction false} EncodeWithinBound(b: Block)
    requires WellFormed(b)
    ensures |Encode(b)| <= CompressBound(|Ops(b)|)
    decreases |b.seqs|
  {
    if b.seqs == [] {
      if |b.last| >= LEN_MASK {
        RunLength(|b.last| - LEN_MASK);
      }
    } else {
      var tail := Block(b.seqs[1..], b.last);
      SequenceCost(b.seqs[0]);
      EncodeWithinBound(tail);
      assert |Ops(b)| == |b.seqs[0].lits| + b.seqs[0].mlen + |Ops(tail)|;
    }
  }

  // The block without matches, which any message has.
  function Stored(msg: seq<byte>): (b: Block)
    ensures WellFormed(b) && Ops(b) == Literals(msg)
  {
    Block([], msg)
  }

  // Parsed distances fit the two bytes they are read from.
  lemma {:induction false} OpsDistances(b: Block)
    requires forall k :: 0 <= k < |b.seqs| ==> b.seqs[k].dist <= MAX_DISTANCE
    ensures forall i :: 0 <= i < |Ops(b)| && Ops(b)[i].Copy? ==> Ops(b)[i].dist <= MAX_DISTANCE
    decreases |b.seqs|
  {
    if b.seqs == [] {
      assert Ops(b) == Literals(b.last);
    } else {
      var tail := Block(b.seqs[1..], b.last);
      OpsDistances(tail);
      assert Ops(b) == Literals(b.seqs[0].lits) + Copies(b.seqs[0].dist, b.seqs[0].mlen) + Ops(tail);
    }
  }
}
