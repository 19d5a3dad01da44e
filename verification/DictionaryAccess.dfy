// dictionaryRandomAccess.c: independent blocks behind a magic number, followed
// by a jump table, and a reader that decodes only the blocks of a range.
module DictionaryAccess {
  import opened Wrappers
  import opened Bytes
  import opened Files
  import opened History
  import opened BlockFormat
  import opened StreamDecode
  import opened Comparison

  const BLOCK_BYTES: nat := 1024
  const MAX_BLOCKS: nat := 1024
  const MAGIC: seq<byte> := [84, 69, 83, 84]

  // The longest input whose offsets fit the table kept while compressing.
  const MAX_INPUT: nat := (MAX_BLOCKS - 1) * BLOCK_BYTES

  // A compressor that has loaded a dictionary chooses a block for each chunk.
  type Compressor = (seq<byte>, seq<byte>, nat) -> Block

  // All that is assumed of it: the block spells the chunk, after nothing but
  // the dictionary.
  ghost predicate Sound(c: Compressor) {
    forall dict, chunk, k :: WellFormed(c(dict, chunk, k)) && Describes(dict, Ops(c(dict, chunk, k)), chunk)
  }

  // LZ4_loadDict: the bytes that a compressor may refer to. A dictionary of less
  // than one hash unit (a machine word) is dropped, and of a long one the last
  // 64 KB are kept.
  function LoadDict(dict: seq<byte>, hashUnit: nat): seq<byte> {
    if |dict| < hashUnit then [] else dict[|dict| - Min(|dict|, WINDOW)..]
  }

  // What a decoder needs of its own dictionary `buffer` for blocks that were
  // chosen with `dict`: the same bytes at the end, as far as distances reach.
  predicate Serves(buffer: seq<byte>, dict: seq<byte>) {
    var n := Min(|dict|, MAX_DISTANCE);
    n <= |buffer| && buffer[|buffer| - n..] == dict[|dict| - n..]
  }

  // The compressor that finds no matches.
  function StoringCompressor(): Compressor {
    (dict: seq<byte>, chunk: seq<byte>, k: nat) => Stored(chunk)
  }

  lemma SoundCompressorsExist()
    ensures Sound(StoringCompressor())
  {
    var c := StoringCompressor();
    forall dict: seq<byte>, chunk: seq<byte>, k: nat
      ensures WellFormed(c(dict, chunk, k)) && Describes(dict, Ops(c(dict, chunk, k)), chunk)
    {
      assert c(dict, chunk, k) == Stored(chunk);
    }
  }

  function NumBlocks(size: nat): nat {
    (size + BLOCK_BYTES - 1) / BLOCK_BYTES
  }

  // Block number k of the input.
  function Chunk(input: seq<byte>, k: nat): (r: seq<byte>)
    requires k < NumBlocks(|input|)
    ensures 1 <= |r| <= BLOCK_BYTES
  {
    input[k * BLOCK_BYTES..Min((k + 1) * BLOCK_BYTES, |input|)]
  }

  ghost function Payload(input: seq<byte>, dict: seq<byte>, c: Compressor, k: nat): (r: seq<byte>)
    requires Sound(c) && k < NumBlocks(|input|)
  {
    Encode(c(dict, Chunk(input, k), k))
  }

  lemma PayloadLength(input: seq<byte>, dict: seq<byte>, c: Compressor, k: nat)
    requires Sound(c) && k < NumBlocks(|input|)
    ensures 1 <= |Payload(input, dict, c, k)| <= CompressBound(BLOCK_BYTES)
  {
    EncodeWithinBound(c(dict, Chunk(input, k), k));
  }

  // The payloads of the first n blocks.
  ghost function Payloads(input: seq<byte>, dict: seq<byte>, c: Compressor, n: nat): (r: seq<seq<byte>>)
    requires Sound(c) && n <= NumBlocks(|input|)
    ensures |r| == n
    ensures forall k :: 0 <= k < n ==> r[k] == Payload(input, dict, c, k)
  {
    if n == 0 then [] else Payloads(input, dict, c, n - 1) + [Payload(input, dict, c, n - 1)]
  }

  function Flatten(payloads: seq<seq<byte>>): seq<byte> {
    if payloads == [] then [] else Flatten(payloads[..|payloads| - 1]) + payloads[|payloads| - 1]
  }

  // Where block k starts in the file; for the number of blocks, where the
  // table starts.
  function Offset(payloads: seq<seq<byte>>, k: nat): (r: nat)
    requires k <= |payloads|
    ensures r >= |MAGIC|
  {
    |MAGIC| + |Flatten(payloads[..k])|
  }

  // The jump table: 32-bit offsets, one more than there are blocks.
  ghost function Table(payloads: seq<seq<byte>>, n: nat): (r: seq<byte>)
    requires n <= |payloads| + 1
    requires forall k :: 0 <= k <= |payloads| ==> Offset(payloads, k) <= INT32_MAX
    ensures |r| == 4 * n
  {
    if n == 0 then [] else Table(payloads, n - 1) + Le32(Offset(payloads, n - 1))
  }

  ghost predicate Fits(payloads: seq<seq<byte>>) {
    && |payloads| < MAX_BLOCKS
    && forall k :: 0 <= k <= |payloads| ==> Offset(payloads, k) <= INT32_MAX
  }

  ghost function Container(payloads: seq<seq<byte>>): seq<byte>
    requires Fits(payloads)
  {
    MAGIC + Flatten(payloads) + Table(payloads, |payloads| + 1) + Le32(|payloads| + 1)
  }

  // The compressed file for an input.
  ghost function Compressed(input: seq<byte>, dict: seq<byte>, c: Compressor): seq<byte>
    requires Sound(c) && |input| <= MAX_INPUT
  {
    PayloadsFit(input, dict, c, NumBlocks(|input|));
    Container(Payloads(input, dict, c, NumBlocks(|input|)))
  }

  lemma OffsetStep(payloads: seq<seq<byte>>, k: nat)
    requires k < |payloads|
    ensures Flatten(payloads[..k + 1]) == Flatten(payloads[..k]) + payloads[k]
    ensures Offset(payloads, k + 1) == Offset(payloads, k) + |payloads[k]|
  {
    assert payloads[..k + 1][..k] == payloads[..k];
  }

  lemma PayloadsFit(input: seq<byte>, dict: seq<byte>, c: Compressor, n: nat)
    requires Sound(c) && |input| <= MAX_INPUT && n <= NumBlocks(|input|)
    ensures Fits(Payloads(input, dict, c, n))
  {
    hide Payload, Sound;
    var payloads := Payloads(input, dict, c, n);
    forall k | 0 <= k < n
      ensures |payloads[k]| <= CompressBound(BLOCK_BYTES)
    {
      PayloadLength(input, dict, c, k);
    }
    forall k | 0 <= k <= n
      ensures Offset(payloads, k) <= INT32_MAX
    {
      OffsetBound(payloads, k);
    }
  }

  lemma {:induction false} OffsetBound(payloads: seq<seq<byte>>, k: nat)
    requires k <= |payloads|
    requires forall j :: 0 <= j < |payloads| ==> |payloads[j]| <= CompressBound(BLOCK_BYTES)
    ensures Offset(payloads, k) <= |MAGIC| + k * CompressBound(BLOCK_BYTES)
    decreases k
  {
    if k == 0 {
      assert Offset(payloads, k) == |MAGIC|;
    } else {
      OffsetBound(payloads, k - 1);
      OffsetStep(payloads, k - 1);
    }
  }

  // How the reader may end: normally, by one of its exits, or outside what C
  // defines (an array overrun or a negative write length).
  datatype Exit = Return | Code(n: int) | Undefined

  datatype Reading = Reading(exit: Exit, written: seq<byte>)

  // The message of one payload with the dictionary loaded.
  function DecodeBlock(dict: seq<byte>, payload: seq<byte>): (r: Option<seq<byte>>)
    ensures r.Some? ==> 1 <= |r.value| <= BLOCK_BYTES
  {
    var block := Parse(payload);
    if block.None? || Ops(block.value) == [] || |Ops(block.value)| > BLOCK_BYTES then None
    else Expand(dict, Ops(block.value))
  }

  // The decoding loop over the blocks [cur, end), reading from `pos` on.
  function ReadBlocks(file: seq<byte>, pos: nat, offsets: seq<int>, dict: seq<byte>,
                      cur: nat, end: nat, offset: nat, length: nat): Reading
    requires cur <= end < |offsets|
    decreases end - cur
  {
    if cur == end then Reading(Return, [])
    else
      var cmpBytes := offsets[cur + 1] - offsets[cur];
      if cmpBytes < 0 || cmpBytes > CompressBound(BLOCK_BYTES) then Reading(Undefined, [])
      else
        var payload := Next(RestOf(file, pos), cmpBytes);
        if |payload| != cmpBytes then Reading(Code(4), [])
        else
          var m := DecodeBlock(dict, payload);
          if m.None? then Reading(Code(5), [])
          else if |m.value| < offset then Reading(Undefined, [])
          else
            var blockLength := Min(length, |m.value| - offset);
            var rest := ReadBlocks(file, pos + cmpBytes, offsets, dict, cur + 1, end, 0, length - blockLength);
            Reading(rest.exit, m.value[offset..offset + blockLength] + rest.written)
  }

  function ReadInts(file: seq<byte>, pos: nat, count: nat): (r: seq<int>)
    requires pos + 4 * count <= |file|
    ensures |r| == count
  {
    if count == 0 then [] else ReadInts(file, pos, count - 1) + [FromLe32(file[pos + 4 * count - 4..pos + 4 * count])]
  }

  // What the reader does with any file.
  function ReadRange(file: seq<byte>, dict: seq<byte>, offset: nat, length: nat): Reading {
    if length == 0 then Reading(Return, [])
    else if |file| < |MAGIC| then Reading(Code(1), [])
    else if file[..|MAGIC|] != MAGIC then Reading(Code(2), [])
    else ReadWithTable(file, dict, offset, length, FromLe32(file[|file| - 4..]))
  }

  // The same once the number of table entries is known.
  function ReadWithTable(file: seq<byte>, dict: seq<byte>, offset: nat, length: nat, numOffsets: int): Reading
    requires length >= 1
  {
    var currentBlock := offset / BLOCK_BYTES;
    var endBlock := (offset + length - 1) / BLOCK_BYTES + 1;
    if numOffsets <= endBlock then Reading(Code(3), [])
    else if 4 * (numOffsets + 1) > INT32_MAX then Reading(Undefined, [])
    else if 4 * (numOffsets + 1) > |file| then Reading(Code(14), [])
    else if endBlock >= MAX_BLOCKS then Reading(Undefined, [])
    else
      var offsets := ReadInts(file, |file| - 4 * (numOffsets + 1), endBlock + 1);
      if offsets[currentBlock] < 0 then Reading(Code(14), [])
      else ReadBlocks(file, offsets[currentBlock], offsets, dict, currentBlock, endBlock, offset % BLOCK_BYTES, length)
  }

  lemma {:induction false} FlattenPrefix(payloads: seq<seq<byte>>, k: nat)
    requires k <= |payloads|
    ensures var n := |Flatten(payloads[..k])|; n <= |Flatten(payloads)| && Flatten(payloads)[..n] == Flatten(payloads[..k])
    decreases |payloads|
  {
    if k == |payloads| {
      assert payloads[..k] == payloads;
    } else {
      var before := payloads[..|payloads| - 1];
      FlattenPrefix(before, k);
      assert before[..k] == payloads[..k];
    }
  }

  // Offsets k and k + 1 delimit payload k in the file.
  ghost predicate Delimits(payloads: seq<seq<byte>>, k: nat)
    requires Fits(payloads) && k < |payloads|
  {
    && Offset(payloads, k) < Offset(payloads, k + 1) <= Offset(payloads, |payloads|) <= |Container(payloads)|
    && Container(payloads)[Offset(payloads, k)..Offset(payloads, k + 1)] == payloads[k]
  }

  // Where payload k lies in the concatenation of all.
  lemma PayloadInFlatten(payloads: seq<seq<byte>>, k: nat)
    requires k < |payloads|
    ensures var flat := Flatten(payloads);
            var a, b := |Flatten(payloads[..k])|, |Flatten(payloads[..k + 1])|;
            a <= b <= |flat| && flat[a..b] == payloads[k]
  {
    hide Flatten;
    var flat := Flatten(payloads);
    var a, b := |Flatten(payloads[..k])|, |Flatten(payloads[..k + 1])|;
    OffsetStep(payloads, k);
    FlattenPrefix(payloads, k + 1);
    assert flat[a..b] == flat[..b][a..];
  }

  // The jump table is sound: offsets start behind the magic number, strictly
  // increase, delimit the payloads in the file, and end where the table starts.
  lemma OffsetsDelimitPayloads(payloads: seq<seq<byte>>, k: nat)
    requires Fits(payloads) && k < |payloads| && payloads[k] != []
    ensures Offset(payloads, 0) == |MAGIC|
    ensures Offset(payloads, |payloads|) == |Container(payloads)| - 4 * (|payloads| + 2)
    ensures Delimits(payloads, k)
  {
    var flat := Flatten(payloads);
    var a, b := |Flatten(payloads[..k])|, |Flatten(payloads[..k + 1])|;
    assert payloads[..0] == [] && payloads[..|payloads|] == payloads;
    OffsetStep(payloads, k);
    PayloadInFlatten(payloads, k);
    hide Flatten, Le32;
    var file := Container(payloads);
    var rest := Table(payloads, |payloads| + 1) + Le32(|payloads| + 1);
    assert file == MAGIC + flat + rest;
    SliceInside(MAGIC, flat, rest, a, b);
  }

  lemma SliceInside(before: seq<byte>, s: seq<byte>, after: seq<byte>, i: nat, j: nat)
    requires i <= j <= |s|
    ensures (before + s + after)[|before| + i..|before| + j] == s[i..j]
  {
  }

  // The entries of the table are read back.
  lemma {:induction false} ReadIntsOfTable(payloads: seq<seq<byte>>, file: seq<byte>, pos: nat, n: nat)
    requires Fits(payloads) && n <= |payloads| + 1 && pos + 4 * n <= |file|
    requires file[pos..pos + 4 * n] == Table(payloads, n)
    ensures forall k :: 0 <= k < n ==> ReadInts(file, pos, n)[k] == Offset(payloads, k)
    decreases n
  {
    hide Offset, FromLe32, Le32;
    if n == 0 {
      assert ReadInts(file, pos, n) == [];
    } else {
      var m := 4 * n - 4;
      assert file[pos..pos + m] == file[pos..pos + 4 * n][..m] == Table(payloads, n - 1);
      ReadIntsOfTable(payloads, file, pos, n - 1);
      assert file[pos + m..pos + 4 * n] == file[pos..pos + 4 * n][m..] == Le32(Offset(payloads, n - 1));
      Le32RoundTrip(Offset(payloads, n - 1));
    }
  }

  lemma {:induction false} TablePrefix(payloads: seq<seq<byte>>, n: nat, k: nat)
    requires Fits(payloads) && k <= n <= |payloads| + 1
    ensures Table(payloads, n)[..4 * k] == Table(payloads, k)
    decreases n
  {
    if k == n {
      assert Table(payloads, n)[..4 * k] == Table(payloads, n);
    } else {
      TablePrefix(payloads, n - 1, k);
      assert Table(payloads, n)[..4 * k] == Table(payloads, n)[..4 * (n - 1)][..4 * k];
    }
  }

  // The tail of the file: 4 bytes from the end stands the number of offsets,
  // and 4 * (numOffsets + 1) bytes from the end starts the table.
  lemma TailRoundTrip(payloads: seq<seq<byte>>, count: nat)
    requires Fits(payloads) && count <= |payloads| + 1
    ensures var file := Container(payloads);
            var start := |file| - 4 * (|payloads| + 2);
            && |file| >= |MAGIC| && file[..|MAGIC|] == MAGIC
            && FromLe32(file[|file| - 4..]) == |payloads| + 1
            && start == Offset(payloads, |payloads|)
            && forall k :: 0 <= k < count ==> ReadInts(file, start, count)[k] == Offset(payloads, k)
  {
    hide Le32, FromLe32;
    var file := Container(payloads);
    var n := |payloads| + 1;
    var head := MAGIC + Flatten(payloads);
    assert payloads[..|payloads|] == payloads;
    assert file == head + Table(payloads, n) + Le32(n);
    assert file[|file| - 4..] == Le32(n);
    Le32RoundTrip(n);
    var start := |head|;
    assert file[start..start + 4 * count] == Table(payloads, n)[..4 * count];
    TablePrefix(payloads, n, count);
    ReadIntsOfTable(payloads, file, start, count);
  }

  // LZ4_loadDict keeps the end of a dictionary, at most 64 KB, which is all that
  // matters of it: a buffer serves the part exactly when it serves the whole.
  lemma LoadDictKeepsEnough(dict: seq<byte>, hashUnit: nat, buffer: seq<byte>)
    ensures Serves(buffer, LoadDict(dict, hashUnit)) <==> |dict| < hashUnit || Serves(buffer, dict)
    ensures var kept := LoadDict(dict, hashUnit);
            && |kept| == (if |dict| < hashUnit then 0 else Min(|dict|, 65536))
            && kept == dict[|dict| - |kept|..]
  {
    if |dict| >= hashUnit {
      var kept, n := LoadDict(dict, hashUnit), Min(|dict|, MAX_DISTANCE);
      assert kept[|kept| - n..] == dict[|dict| - n..];
    }
  }

  // A block means the same after any buffer that serves its dictionary.
  lemma ServedDescribes(dict: seq<byte>, buffer: seq<byte>, ops: seq<Op>, m: seq<byte>)
    requires Serves(buffer, dict) && Describes(dict, ops, m)
    requires forall i :: 0 <= i < |ops| && ops[i].Copy? ==> ops[i].dist <= MAX_DISTANCE
    ensures Describes(buffer, ops, m)
  {
    var n := Min(|dict|, MAX_DISTANCE);
    forall i | 0 <= i < |m|
      ensures Yields(buffer, m, i, ops[i])
    {
      assert Yields(dict, m, i, ops[i]);
      if ops[i].Copy? && ops[i].dist > i {
        var back := ops[i].dist - i;
        assert buffer[|buffer| - n..][n - back] == dict[|dict| - n..][n - back];
      }
    }
  }

  // Each payload decodes to its chunk of the input.
  lemma PayloadDecodes(input: seq<byte>, dict: seq<byte>, buffer: seq<byte>, c: Compressor, k: nat)
    requires Sound(c) && k < NumBlocks(|input|) && Serves(buffer, dict)
    ensures DecodeBlock(buffer, Payload(input, dict, c, k)) == Some(Chunk(input, k))
  {
    hide Serves;
    var b := c(dict, Chunk(input, k), k);
    ParseRoundTrip(b);
    OpsDistances(b);
    ServedDescribes(dict, buffer, Ops(b), Chunk(input, k));
    ExpandIffDescribes(buffer, Ops(b), Chunk(input, k));
  }

  // What a range asks for, as far as the input goes.
  function Slice(input: seq<byte>, offset: nat, length: nat): seq<byte>
    requires offset <= |input|
  {
    input[offset..Min(offset + length, |input|)]
  }

  lemma LastSlice(input: seq<byte>, start: nat, length: nat, len: nat)
    requires start <= |input| && start + len == Min(start + length, |input|)
    ensures Slice(input, start, length) == input[start..start + len]
  {
  }

  lemma SliceSplit(input: seq<byte>, start: nat, len: nat, length: nat)
    requires len <= length && start + len <= |input|
    ensures Slice(input, start, length) == input[start..start + len] + Slice(input, start + len, length - len)
  {
  }

  // The file and the table entries a reader has for the blocks before `end`.
  ghost predicate Reads(file: seq<byte>, offsets: seq<int>, input: seq<byte>, dict: seq<byte>, c: Compressor, end: nat)
    requires Sound(c)
  {
    && end <= NumBlocks(|input|) && |offsets| == end + 1
    && (forall k :: 0 <= k <= end ==> 0 <= offsets[k] <= |file|)
    && (forall k :: 0 <= k < end ==>
          offsets[k] <= offsets[k + 1] && file[offsets[k]..offsets[k + 1]] == Payload(input, dict, c, k))
  }

  // One block of the loop, whatever the reader's dictionary makes of it.
  lemma DecodeOneBlock(file: seq<byte>, offsets: seq<int>, input: seq<byte>, dict: seq<byte>, buffer: seq<byte>, c: Compressor,
                       cur: nat, end: nat, offset: nat, length: nat)
    requires Sound(c) && Reads(file, offsets, input, dict, c, end) && cur < end
    ensures var m := DecodeBlock(buffer, Payload(input, dict, c, cur));
            ReadBlocks(file, offsets[cur], offsets, buffer, cur, end, offset, length) ==
            if m.None? then Reading(Code(5), [])
            else if |m.value| < offset then Reading(Undefined, [])
            else
              var blockLength := Min(length, |m.value| - offset);
              var rest := ReadBlocks(file, offsets[cur + 1], offsets, buffer, cur + 1, end, 0, length - blockLength);
              Reading(rest.exit, m.value[offset..offset + blockLength] + rest.written)
  {
    hide Chunk, Payload, DecodeBlock, Sound, CompressBound;
    var payload := Payload(input, dict, c, cur);
    assert file[offsets[cur]..][..offsets[cur + 1] - offsets[cur]] == file[offsets[cur]..offsets[cur + 1]] == payload;
    PayloadLength(input, dict, c, cur);
  }

  // One block of the loop, for a range that starts in it.
  lemma ReadOneBlock(file: seq<byte>, offsets: seq<int>, input: seq<byte>, dict: seq<byte>, buffer: seq<byte>, c: Compressor,
                     cur: nat, end: nat, offset: nat, length: nat)
    requires Sound(c) && Reads(file, offsets, input, dict, c, end) && cur < end && Serves(buffer, dict)
    ensures var m := Chunk(input, cur);
            ReadBlocks(file, offsets[cur], offsets, buffer, cur, end, offset, length) ==
            if |m| < offset then Reading(Undefined, [])
            else
              var blockLength := Min(length, |m| - offset);
              var rest := ReadBlocks(file, offsets[cur + 1], offsets, buffer, cur + 1, end, 0, length - blockLength);
              Reading(rest.exit, m[offset..offset + blockLength] + rest.written)
  {
    hide Chunk, Payload, DecodeBlock, Sound, CompressBound, ReadBlocks, Serves;
    DecodeOneBlock(file, offsets, input, dict, buffer, c, cur, end, offset, length);
    PayloadDecodes(input, dict, buffer, c, cur);
  }

  lemma LengthOfChunk(input: seq<byte>, k: nat)
    requires k < NumBlocks(|input|)
    ensures |Chunk(input, k)| == Min(BLOCK_BYTES, |input| - k * BLOCK_BYTES)
  {
  }

  lemma ChunkSlice(input: seq<byte>, k: nat, offset: nat, len: nat)
    requires k < NumBlocks(|input|) && offset + len <= |Chunk(input, k)|
    ensures var start := k * BLOCK_BYTES + offset;
            start + len <= |input| && Chunk(input, k)[offset..offset + len] == input[start..start + len]
  {
    LengthOfChunk(input, k);
    SliceOfSlice(input, k * BLOCK_BYTES, Min((k + 1) * BLOCK_BYTES, |input|), offset, offset + len);
  }

  lemma SliceOfSlice(s: seq<byte>, lo: nat, hi: nat, i: nat, j: nat)
    requires lo <= hi <= |s| && i <= j <= hi - lo
    ensures s[lo..hi][i..j] == s[lo + i..lo + j]
  {
    var a, b := s[lo..hi][i..j], s[lo + i..lo + j];
    assert |a| == j - i == |b|;
    forall k | 0 <= k < j - i
      ensures a[k] == b[k]
    {
      assert a[k] == s[lo..hi][i + k] == s[lo + (i + k)];
    }
  }

  lemma NoBlocksLeft(file: seq<byte>, pos: nat, offsets: seq<int>, dict: seq<byte>, end: nat, length: nat)
    requires end < |offsets|
    ensures ReadBlocks(file, pos, offsets, dict, end, end, 0, length) == Reading(Return, [])
  {
  }

  // The blocks [cur, end) contain a nonempty range that starts in the first.
  predicate Spans(cur: nat, end: nat, offset: nat, length: nat) {
    length >= 1 && offset < BLOCK_BYTES && end == (cur * BLOCK_BYTES + offset + length - 1) / BLOCK_BYTES + 1
  }

  // The numbers of one round: in the last block what is left of the range is
  // written; before that the block is full, and the rest of the range starts at
  // the next one.
  lemma BlockArithmetic(size: nat, cur: nat, end: nat, offset: nat, length: nat)
    requires Spans(cur, end, offset, length)
    requires cur * BLOCK_BYTES + offset <= size && cur < end <= NumBlocks(size)
    ensures var start := cur * BLOCK_BYTES + offset;
            var left := Min(BLOCK_BYTES, size - cur * BLOCK_BYTES) - offset;
            && left >= 0
            && (cur + 1 == end ==> start + Min(length, left) == Min(start + length, size))
            && (cur + 1 < end ==>
                  && left == BLOCK_BYTES - offset && length > left && (cur + 1) * BLOCK_BYTES <= size
                  && Spans(cur + 1, end, 0, length - left))
  {
    var n := cur * BLOCK_BYTES + offset + length - 1;
    assert n / BLOCK_BYTES * BLOCK_BYTES <= n < n / BLOCK_BYTES * BLOCK_BYTES + BLOCK_BYTES;
  }

  // The loop writes the slice, and nothing remains to be written.
  lemma {:induction false} BlocksReadBack(
      file: seq<byte>, offsets: seq<int>, input: seq<byte>, dict: seq<byte>, buffer: seq<byte>, c: Compressor,
      cur: nat, end: nat, offset: nat, length: nat)
    requires Sound(c) && Reads(file, offsets, input, dict, c, end) && cur < end && Serves(buffer, dict)
    requires Spans(cur, end, offset, length)
    requires cur * BLOCK_BYTES + offset <= |input| && end <= NumBlocks(|input|)
    ensures ReadBlocks(file, offsets[cur], offsets, buffer, cur, end, offset, length) ==
            Reading(Return, Slice(input, cur * BLOCK_BYTES + offset, length))
    decreases end - cur
  {
    hide Reads, Payload, DecodeBlock, Sound, Chunk, ReadBlocks, NumBlocks, Serves, Slice, Spans;
    var start := cur * BLOCK_BYTES + offset;
    BlockArithmetic(|input|, cur, end, offset, length);
    var m := Chunk(input, cur);
    LengthOfChunk(input, cur);
    ReadOneBlock(file, offsets, input, dict, buffer, c, cur, end, offset, length);
    var blockLength := Min(length, |m| - offset);
    ChunkSlice(input, cur, offset, blockLength);
    ReadsOffset(file, offsets, input, dict, c, end, cur + 1);
    if cur + 1 == end {
      assert Slice(input, start, length) == input[start..start + blockLength] + [] by {
        LastSlice(input, start, length, blockLength);
      }
      NoBlocksLeft(file, offsets[cur + 1], offsets, buffer, end, length - blockLength);
    } else {
      BlocksReadBack(file, offsets, input, dict, buffer, c, cur + 1, end, 0, length - blockLength);
      SliceSplit(input, start, blockLength, length);
    }
  }

  // The length still wanted when the loop comes to block k > cur: everything
  // before the block has been written, as far as there was input.
  function LeftAt(size: nat, cur: nat, offset: nat, length: nat, k: nat): (r: nat)
    requires k >= cur
    ensures r <= length
  {
    var start := cur * BLOCK_BYTES + offset;
    if k == cur then length else start + length - Max(start, Min(start + length, Min(k * BLOCK_BYTES, size)))
  }

  // Only the first block is entered behind its start.
  function OffsetAt(cur: nat, offset: nat, k: nat): nat {
    if k == cur then offset else 0
  }

  // Each round writes at least one byte and stays within its block; the length
  // wanted is used up exactly when the loop ends, if the input has it all.
  lemma RoundProgresses(size: nat, cur: nat, end: nat, offset: nat, length: nat, k: nat)
    requires Spans(cur, end, offset, length)
    requires cur * BLOCK_BYTES + offset < size && cur <= k < end <= NumBlocks(size)
    ensures var left := LeftAt(size, cur, offset, length, k);
            var room := Min(BLOCK_BYTES, size - k * BLOCK_BYTES) - OffsetAt(cur, offset, k);
            && 1 <= Min(left, room) <= room && LeftAt(size, cur, offset, length, k + 1) == left - Min(left, room)
            && cur * BLOCK_BYTES + offset + length - left == k * BLOCK_BYTES + OffsetAt(cur, offset, k) < size
    ensures cur * BLOCK_BYTES + offset + length <= size ==>
              LeftAt(size, cur, offset, length, k) > 0 && LeftAt(size, cur, offset, length, end) == 0
  {
    var n := cur * BLOCK_BYTES + offset + length - 1;
    assert n / BLOCK_BYTES * BLOCK_BYTES <= n < n / BLOCK_BYTES * BLOCK_BYTES + BLOCK_BYTES;
  }

  // Round k of the loop: the block adds its part, at least one byte, and the
  // next round is entered with the length that is left then.
  lemma RoundOfLoop(
      file: seq<byte>, offsets: seq<int>, input: seq<byte>, dict: seq<byte>, buffer: seq<byte>, c: Compressor,
      cur: nat, end: nat, offset: nat, length: nat, k: nat)
    requires Sound(c) && Reads(file, offsets, input, dict, c, end) && Serves(buffer, dict)
    requires Spans(cur, end, offset, length)
    requires cur * BLOCK_BYTES + offset < |input| && cur <= k < end <= NumBlocks(|input|)
    ensures var left, left1 := LeftAt(|input|, cur, offset, length, k), LeftAt(|input|, cur, offset, length, k + 1);
            var enter := OffsetAt(cur, offset, k);
            var blockLength := left - left1;
            var rest1 := ReadBlocks(file, offsets[k + 1], offsets, buffer, k + 1, end, 0, left1);
            && 1 <= blockLength <= |Chunk(input, k)| - enter
            && ReadBlocks(file, offsets[k], offsets, buffer, k, end, enter, left)
            == Reading(rest1.exit, Chunk(input, k)[enter..enter + blockLength] + rest1.written)
  {
    hide Reads, Payload, DecodeBlock, Sound, Chunk, ReadBlocks, NumBlocks, Serves, LeftAt, Spans;
    RoundProgresses(|input|, cur, end, offset, length, k);
    LengthOfChunk(input, k);
    ReadsOffset(file, offsets, input, dict, c, end, k);
    ReadsOffset(file, offsets, input, dict, c, end, k + 1);
    ReadOneBlock(file, offsets, input, dict, buffer, c, k, end,
                 OffsetAt(cur, offset, k), LeftAt(|input|, cur, offset, length, k));
  }

  // The loop comes to every block of the range, and what it has written by
  // then is the input up to there.
  lemma {:induction false} LoopComesToRound(
      file: seq<byte>, offsets: seq<int>, input: seq<byte>, dict: seq<byte>, buffer: seq<byte>, c: Compressor,
      cur: nat, end: nat, offset: nat, length: nat, k: nat)
    requires Sound(c) && Reads(file, offsets, input, dict, c, end) && Serves(buffer, dict)
    requires Spans(cur, end, offset, length)
    requires cur * BLOCK_BYTES + offset < |input| && cur <= k < end <= NumBlocks(|input|)
    ensures var start, here := cur * BLOCK_BYTES + offset, k * BLOCK_BYTES + OffsetAt(cur, offset, k);
            var left := LeftAt(|input|, cur, offset, length, k);
            var rest := ReadBlocks(file, offsets[k], offsets, buffer, k, end, OffsetAt(cur, offset, k), left);
            && start <= here < |input| && here - start + left == length
            && ReadBlocks(file, offsets[cur], offsets, buffer, cur, end, offset, length)
            == Reading(rest.exit, input[start..here] + rest.written)
    decreases k
  {
    hide Reads, Payload, DecodeBlock, Sound, Chunk, ReadBlocks, NumBlocks, Serves, LeftAt, Spans;
    var start := cur * BLOCK_BYTES + offset;
    var left := LeftAt(|input|, cur, offset, length, k);
    RoundProgresses(|input|, cur, end, offset, length, k);
    ReadsOffset(file, offsets, input, dict, c, end, k);
    var rest := ReadBlocks(file, offsets[k], offsets, buffer, k, end, OffsetAt(cur, offset, k), left);
    if k == cur {
      LeftAtStart(|input|, cur, offset, length);
      assert input[start..start] + rest.written == rest.written;
    } else {
      LoopComesToRound(file, offsets, input, dict, buffer, c, cur, end, offset, length, k - 1);
      RoundOfLoop(file, offsets, input, dict, buffer, c, cur, end, offset, length, k - 1);
      RoundProgresses(|input|, cur, end, offset, length, k - 1);
      var enter, blockLength := OffsetAt(cur, offset, k - 1), LeftAt(|input|, cur, offset, length, k - 1) - left;
      JoinChunk(input, start, k - 1, enter, blockLength, rest.written);
    }
  }

  // The input up to a block and a part of the block, joined.
  lemma JoinChunk(input: seq<byte>, start: nat, k: nat, enter: nat, len: nat, rest: seq<byte>)
    requires k < NumBlocks(|input|) && enter + len <= |Chunk(input, k)| && start <= k * BLOCK_BYTES + enter
    ensures var here := k * BLOCK_BYTES + enter;
            && here + len <= |input|
            && input[start..here] + (Chunk(input, k)[enter..enter + len] + rest) == input[start..here + len] + rest
  {
    hide Chunk, NumBlocks;
    ChunkSlice(input, k, enter, len);
    var here := k * BLOCK_BYTES + enter;
    assert input[start..here] + input[here..here + len] == input[start..here + len];
    assert input[start..here] + (input[here..here + len] + rest) == (input[start..here] + input[here..here + len]) + rest;
  }

  lemma LeftAtStart(size: nat, cur: nat, offset: nat, length: nat)
    ensures LeftAt(size, cur, offset, length, cur) == length
  {
  }

  // The first entries of the table delimit the first payloads.
  ghost predicate TableOf(file: seq<byte>, offsets: seq<int>, payloads: seq<seq<byte>>, end: nat)
    requires end <= |payloads|
  {
    && |offsets| == end + 1
    && (forall k :: 0 <= k <= end ==> 0 <= offsets[k] <= |file|)
    && (forall k :: 0 <= k < end ==> offsets[k] <= offsets[k + 1] && file[offsets[k]..offsets[k + 1]] == payloads[k])
  }

  lemma ContainerTable(payloads: seq<seq<byte>>, end: nat)
    requires Fits(payloads) && 1 <= end <= |payloads|
    requires forall k :: 0 <= k < |payloads| ==> payloads[k] != []
    ensures var file := Container(payloads);
            && |file| >= 4 * (|payloads| + 2)
            && TableOf(file, ReadInts(file, |file| - 4 * (|payloads| + 2), end + 1), payloads, end)
  {
    hide Container, Offset, ReadInts;
    var file := Container(payloads);
    TailRoundTrip(payloads, end + 1);
    var offsets := ReadInts(file, |file| - 4 * (|payloads| + 2), end + 1);
    forall k | 0 <= k < end
      ensures Delimits(payloads, k)
    {
      OffsetsDelimitPayloads(payloads, k);
    }
    forall k | 0 <= k <= end
      ensures 0 <= offsets[k] <= |file|
    {
      assert k < end ==> Delimits(payloads, k);
      assert k > 0 ==> Delimits(payloads, k - 1);
    }
    forall k | 0 <= k < end
      ensures offsets[k] <= offsets[k + 1] && file[offsets[k]..offsets[k + 1]] == payloads[k]
    {
      assert Delimits(payloads, k);
    }
  }

  // The reader gets its table from the container.
  lemma ContainerReads(input: seq<byte>, dict: seq<byte>, c: Compressor, end: nat)
    requires Sound(c) && |input| <= MAX_INPUT && 1 <= end <= NumBlocks(|input|)
    ensures var file := Compressed(input, dict, c);
            var n := NumBlocks(|input|);
            && |file| >= 4 * (n + 2)
            && Reads(file, ReadInts(file, |file| - 4 * (n + 2), end + 1), input, dict, c, end)
  {
    hide Payload, Container, ReadInts, Sound, Fits;
    var n := NumBlocks(|input|);
    var payloads := Payloads(input, dict, c, n);
    PayloadsFit(input, dict, c, n);
    forall k | 0 <= k < n
      ensures payloads[k] != []
    {
      PayloadLength(input, dict, c, k);
    }
    ContainerTable(payloads, end);
  }

  lemma ReadsOffset(file: seq<byte>, offsets: seq<int>, input: seq<byte>, dict: seq<byte>, c: Compressor, end: nat, k: nat)
    requires Sound(c) && Reads(file, offsets, input, dict, c, end) && k <= end
    ensures |offsets| == end + 1 && 0 <= offsets[k]
  {
  }

  // The reader comes to the loop, with the entries of the table it needs, unless
  // the range leaves the last block.
  lemma ReachesLoop(input: seq<byte>, dict: seq<byte>, buffer: seq<byte>, c: Compressor, offset: nat, length: nat)
    requires Sound(c) && |input| <= MAX_INPUT && length >= 1
    ensures var file := Compressed(input, dict, c);
            var end := (offset + length - 1) / BLOCK_BYTES + 1;
            var r := ReadRange(file, buffer, offset, length);
            if offset + length > NumBlocks(|input|) * BLOCK_BYTES then r == Reading(Code(3), [])
            else
              && end <= NumBlocks(|input|) && |file| >= 4 * (NumBlocks(|input|) + 2)
              && var offsets := ReadInts(file, |file| - 4 * (NumBlocks(|input|) + 2), end + 1);
              && Reads(file, offsets, input, dict, c, end) && offsets[offset / BLOCK_BYTES] >= 0
              && r == ReadBlocks(file, offsets[offset / BLOCK_BYTES], offsets, buffer,
                                 offset / BLOCK_BYTES, end, offset % BLOCK_BYTES, length)
  {
    hide Payload, Container, ReadInts, ReadBlocks, FromLe32, Sound, Reads;
    var n := NumBlocks(|input|);
    var file := Compressed(input, dict, c);
    var end := (offset + length - 1) / BLOCK_BYTES + 1;
    PayloadsFit(input, dict, c, n);
    TailRoundTrip(Payloads(input, dict, c, n), 0);
    if end <= n {
      ContainerReads(input, dict, c, end);
      ReadsOffset(file, ReadInts(file, |file| - 4 * (n + 2), end + 1), input, dict, c, end, offset / BLOCK_BYTES);
    }
  }

  // Random access equals slicing, for every input that fits the table, every
  // dictionary and every nonempty range: the reader gives up with code 3
  // exactly when the range leaves the last block; a range that starts behind
  // the input but within its last block makes it write a negative length; in
  // all other cases it writes the slice of the input.
  lemma RandomAccess(
      input: seq<byte>, dict: seq<byte>, buffer: seq<byte>, c: Compressor, offset: nat, length: nat)
    requires Sound(c) && |input| <= MAX_INPUT && length >= 1 && Serves(buffer, dict)
    ensures ReadRange(Compressed(input, dict, c), buffer, offset, length) ==
            if offset + length > NumBlocks(|input|) * BLOCK_BYTES then Reading(Code(3), [])
            else if offset > |input| then Reading(Undefined, [])
            else Reading(Return, Slice(input, offset, length))
  {
    hide Payload, Compressed, ReadRange, ReadInts, ReadBlocks, Sound, Reads, Serves;
    var n := NumBlocks(|input|);
    var file := Compressed(input, dict, c);
    var end := (offset + length - 1) / BLOCK_BYTES + 1;
    var cur := offset / BLOCK_BYTES;
    ReachesLoop(input, dict, buffer, c, offset, length);
    if end <= n {
      var offsets := ReadInts(file, |file| - 4 * (n + 2), end + 1);
      if offset <= |input| {
        BlocksReadBack(file, offsets, input, dict, buffer, c, cur, end, offset % BLOCK_BYTES, length);
      } else {
        LengthOfChunk(input, cur);
        ReadOneBlock(file, offsets, input, dict, buffer, c, cur, end, offset % BLOCK_BYTES, length);
      }
    }
  }

  // The in-range case alone, with the length of what is written.
  lemma InRangeReadsSlice(input: seq<byte>, dict: seq<byte>, buffer: seq<byte>, c: Compressor, offset: nat, length: nat)
    requires Sound(c) && |input| <= MAX_INPUT && offset + length <= |input| && Serves(buffer, dict)
    ensures ReadRange(Compressed(input, dict, c), buffer, offset, length) == Reading(Return, input[offset..offset + length])
  {
    hide ReadRange, Compressed;
    if length >= 1 {
      RandomAccess(input, dict, buffer, c, offset, length);
    } else {
      EmptyRange(Compressed(input, dict, c), buffer, offset);
    }
  }

  // The ways in which the decoding loop can end.
  predicate LoopExit(exit: Exit) {
    exit in [Return, Code(4), Code(5), Undefined]
  }

  lemma {:induction false} LoopExits(file: seq<byte>, pos: nat, offsets: seq<int>, buffer: seq<byte>,
                                     cur: nat, end: nat, offset: nat, length: nat)
    requires cur <= end < |offsets|
    ensures LoopExit(ReadBlocks(file, pos, offsets, buffer, cur, end, offset, length).exit)
    decreases end - cur
  {
    hide DecodeBlock, RestOf;
    if cur == end {
      assert ReadBlocks(file, pos, offsets, buffer, cur, end, offset, length) == Reading(Return, []);
    } else {
      var cmpBytes := offsets[cur + 1] - offsets[cur];
      if 0 <= cmpBytes <= CompressBound(BLOCK_BYTES) {
        var m := DecodeBlock(buffer, Next(RestOf(file, pos), cmpBytes));
        if m.Some? && |m.value| >= offset {
          LoopExits(file, pos + cmpBytes, offsets, buffer, cur + 1, end, 0, length - Min(length, |m.value| - offset));
        }
      }
    }
  }

  // The first exits of the reader, for any file: it is too short, it does not
  // start with "TEST", or the number at its end is not above the last block.
  lemma FirstExits(file: seq<byte>, buffer: seq<byte>, offset: nat, length: nat)
    requires length >= 1
    ensures var exit := ReadRange(file, buffer, offset, length).exit;
            && (exit == Code(1) <==> |file| < 4)
            && (exit == Code(2) <==> |file| >= 4 && file[..4] != [84, 69, 83, 84])
            && (exit == Code(3) <==>
                  && |file| >= 4 && file[..4] == [84, 69, 83, 84]
                  && FromLe32(file[|file| - 4..]) <= (offset + length - 1) / BLOCK_BYTES + 1)
  {
    hide ReadBlocks, ReadInts, FromLe32;
    if |file| >= 4 {
      var numOffsets := FromLe32(file[|file| - 4..]);
      var cur, end := offset / BLOCK_BYTES, (offset + length - 1) / BLOCK_BYTES + 1;
      if end < numOffsets && 4 * (numOffsets + 1) <= |file| {
        var offsets := ReadInts(file, |file| - 4 * (numOffsets + 1), end + 1);
        if offsets[cur] >= 0 {
          LoopExits(file, offsets[cur], offsets, buffer, cur, end, offset % BLOCK_BYTES, length);
        }
      }
    }
  }

  // Every range of every input is read back as it was, whatever the compressor.
  ghost predicate ReadsBack(dict: seq<byte>, buffer: seq<byte>, c: Compressor)
    requires Sound(c)
  {
    forall input, offset: nat, length: nat :: |input| <= MAX_INPUT && offset + length <= |input| ==>
      ReadRange(Compressed(input, dict, c), buffer, offset, length) == Reading(Return, input[offset..offset + length])
  }

  // The compressor that chooses `b` for one chunk with one dictionary.
  function Choosing(dict: seq<byte>, chunk: seq<byte>, b: Block): Compressor {
    (d: seq<byte>, m: seq<byte>, k: nat) => if d == dict && m == chunk then b else Stored(m)
  }

  lemma ChoosingIsSound(dict: seq<byte>, chunk: seq<byte>, b: Block)
    requires WellFormed(b) && Describes(dict, Ops(b), chunk)
    ensures Sound(Choosing(dict, chunk, b))
  {
    var c := Choosing(dict, chunk, b);
    forall d: seq<byte>, m: seq<byte>, k: nat
      ensures WellFormed(c(d, m, k)) && Describes(d, Ops(c(d, m, k)), m)
    {
      assert c(d, m, k) == if d == dict && m == chunk then b else Stored(m);
    }
  }

  // An input of one block is decoded by the reader's dictionary alone.
  lemma SingleBlock(input: seq<byte>, dict: seq<byte>, buffer: seq<byte>, c: Compressor)
    requires Sound(c) && 1 <= |input| <= BLOCK_BYTES
    ensures Chunk(input, 0) == input
    ensures var m := DecodeBlock(buffer, Payload(input, dict, c, 0));
            ReadRange(Compressed(input, dict, c), buffer, 0, |input|) ==
            if m.None? then Reading(Code(5), []) else Reading(Return, m.value[..Min(|input|, |m.value|)])
  {
    hide Payload, Compressed, ReadRange, ReadInts, ReadBlocks, Sound, Reads, DecodeBlock;
    var file := Compressed(input, dict, c);
    ReachesLoop(input, dict, buffer, c, 0, |input|);
    var offsets := ReadInts(file, |file| - 4 * (NumBlocks(|input|) + 2), 2);
    DecodeOneBlock(file, offsets, input, dict, buffer, c, 0, 1, 0, |input|);
    ReadsOffset(file, offsets, input, dict, c, 1, 1);
    var m := DecodeBlock(buffer, Payload(input, dict, c, 0));
    if m.Some? {
      var blockLength := Min(|input|, |m.value|);
      NoBlocksLeft(file, offsets[1], offsets, buffer, 1, |input| - blockLength);
      assert m.value[0..blockLength] + [] == m.value[..blockLength];
    }
  }

  // A block that means its chunk after the compressor's dictionary, but not
  // after the reader's, is read back as something else.
  lemma WrongBlockIsMisread(dict: seq<byte>, buffer: seq<byte>, chunk: seq<byte>, b: Block)
    requires WellFormed(b) && 1 <= |chunk| <= BLOCK_BYTES
    requires Describes(dict, Ops(b), chunk) && !Describes(buffer, Ops(b), chunk)
    ensures var c := Choosing(dict, chunk, b);
            Sound(c) && ReadRange(Compressed(chunk, dict, c), buffer, 0, |chunk|).written != chunk
  {
    hide Compressed, ReadRange, Sound, Describes, DecodeBlock;
    var c := Choosing(dict, chunk, b);
    ChoosingIsSound(dict, chunk, b);
    SingleBlock(chunk, dict, buffer, c);
    assert |Ops(b)| == |chunk| by {
      ExpandIffDescribes(dict, Ops(b), chunk);
    }
    DecodesAsExpanded(b, buffer);
    ExpandIffDescribes(buffer, Ops(b), chunk);
    var m := DecodeBlock(buffer, Payload(chunk, dict, c, 0));
    if m.Some? {
      assert m.value[..|m.value|] == m.value;
    }
  }

  lemma DecodesAsExpanded(b: Block, buffer: seq<byte>)
    requires WellFormed(b) && 1 <= |Ops(b)| <= BLOCK_BYTES
    ensures DecodeBlock(buffer, Encode(b)) == Expand(buffer, Ops(b))
  {
    ParseRoundTrip(b);
  }

  // The distance at which a buffer first fails a dictionary.
  lemma FailingDistance(dict: seq<byte>, buffer: seq<byte>) returns (d: nat)
    requires !Serves(buffer, dict)
    ensures 1 <= d <= Min(|dict|, MAX_DISTANCE)
    ensures d > |buffer| || buffer[|buffer| - d] != dict[|dict| - d]
  {
    var n := Min(|dict|, MAX_DISTANCE);
    if n > |buffer| {
      d := n;
    } else {
      d := LastsDiffer(dict, buffer, n);
    }
  }

  lemma LastsDiffer(a: seq<byte>, b: seq<byte>, n: nat) returns (d: nat)
    requires n <= |a| && n <= |b| && a[|a| - n..] != b[|b| - n..]
    ensures 1 <= d <= n && a[|a| - d] != b[|b| - d]
  {
    var k := FirstDifference(a[|a| - n..], b[|b| - n..]);
    d := n - k;
  }

  lemma FirstDifference(a: seq<byte>, b: seq<byte>) returns (k: nat)
    requires |a| == |b| && a != b
    ensures k < |a| && a[k] != b[k]
  {
    k :| 0 <= k < |a| && a[k] != b[k];
  }

  // A match of the least length at the start of a chunk, and as many literals
  // behind it as LZ4 leaves behind its last match.
  function OneMatch(d: nat): Block {
    Block([Sequence([], d, MIN_MATCH)], seq(12, _ => 0))
  }

  // What it means when the history is `dict`.
  lemma OneMatchDescribes(dict: seq<byte>, d: nat) returns (m: seq<byte>)
    requires 1 <= d <= |dict|
    ensures |m| == |Ops(OneMatch(d))| == 16 && Describes(dict, Ops(OneMatch(d)), m)
    ensures Ops(OneMatch(d))[0] == Copy(d) && m[0] == dict[|dict| - d]
  {
    var b := OneMatch(d);
    var ops := Ops(b);
    assert SequenceOps(b.seqs[1..]) == [];
    assert ops == Copies(d, MIN_MATCH) + Literals(b.last);
    ExpandSucceeds(dict, ops);
    m := Expand(dict, ops).value;
    ExpandIffDescribes(dict, ops, m);
    assert Yields(dict, m, 0, ops[0]);
  }

  // The reader's dictionary serves for all sound compressors exactly when it
  // ends like the compressor's, as far as distances reach.
  lemma ReadsBackIffServed(dict: seq<byte>, buffer: seq<byte>)
    ensures (forall c | Sound(c) :: ReadsBack(dict, buffer, c)) <==> Serves(buffer, dict)
  {
    hide Sound, Compressed, ReadRange, Serves, Ops;
    if Serves(buffer, dict) {
      forall c | Sound(c)
        ensures ReadsBack(dict, buffer, c)
      {
        forall input: seq<byte>, offset: nat, length: nat | |input| <= MAX_INPUT && offset + length <= |input|
          ensures ReadRange(Compressed(input, dict, c), buffer, offset, length)
               == Reading(Return, input[offset..offset + length])
        {
          InRangeReadsSlice(input, dict, buffer, c, offset, length);
        }
      }
    } else {
      var d := FailingDistance(dict, buffer);
      var b := OneMatch(d);
      var m := OneMatchDescribes(dict, d);
      assert !Describes(buffer, Ops(b), m) by {
        assert !Yields(buffer, m, 0, Ops(b)[0]);
      }
      WrongBlockIsMisread(dict, buffer, m, b);
      var c := Choosing(dict, m, b);
      assert ReadRange(Compressed(m, dict, c), buffer, 0, |m|) != Reading(Return, m[0..0 + |m|]);
      assert !ReadsBack(dict, buffer, c);
    }
  }

  lemma EmptyRange(file: seq<byte>, dict: seq<byte>, offset: nat)
    ensures ReadRange(file, dict, offset, 0) == Reading(Return, [])
  {
  }

  // What is left of the input after k blocks.
  function Remaining(input: seq<byte>, k: nat): seq<byte> {
    input[Min(k * BLOCK_BYTES, |input|)..]
  }

  // One round of the compressor: what it reads is the next chunk, and its block
  // is the next payload, which fits the buffer.
  lemma NextBlock(input: seq<byte>, dict: seq<byte>, c: Compressor, k: nat, inpBuf: seq<byte>)
    requires Sound(c) && |input| <= MAX_INPUT && k <= NumBlocks(|input|)
    requires inpBuf == Remaining(input, k)[..Min(BLOCK_BYTES, |Remaining(input, k)|)]
    ensures inpBuf == [] <==> k == NumBlocks(|input|)
    ensures inpBuf != [] ==>
              var payloads := Payloads(input, dict, c, NumBlocks(|input|));
              && WellFormed(c(dict, inpBuf, k))
              && Encode(c(dict, inpBuf, k)) == payloads[k] && |payloads[k]| <= CompressBound(BLOCK_BYTES)
              && Flatten(payloads[..k + 1]) == Flatten(payloads[..k]) + payloads[k]
              && Offset(payloads, k + 1) == Offset(payloads, k) + |payloads[k]|
              && Remaining(input, k)[|inpBuf|..] == Remaining(input, k + 1)
  {
    hide Flatten, Offset, Encode;
    if inpBuf != [] {
      ReadChunk(input, k, inpBuf);
      PayloadIs(input, dict, c, k);
      PayloadLength(input, dict, c, k);
      OffsetStep(Payloads(input, dict, c, NumBlocks(|input|)), k);
    }
  }

  method TestCompress(outFp: File, inpFp: File, dictionary: seq<byte>, hashUnit: nat, c: Compressor) returns (exit: Exit)
    requires outFp != inpFp && Sound(c) && |inpFp.Rest()| <= MAX_INPUT
    modifies outFp`data, inpFp`pos
    ensures exit == Return
    ensures outFp.data == old(outFp.data) + Compressed(old(inpFp.Rest()), LoadDict(dictionary, hashUnit), c)
  {
    hide Payload, Payloads, Flatten, Offset, Table, Sound, Le32, Encode, Remaining, NumBlocks, CompressBound, LoadDict, File.Rest;
    var dict := LoadDict(dictionary, hashUnit);
    ghost var input := inpFp.Rest();
    ghost var payloads := Payloads(input, dict, c, NumBlocks(|input|));
    PayloadsFit(input, dict, c, NumBlocks(|input|));
    ghost var base := outFp.data;
    var offsets := new int[MAX_BLOCKS];
    outFp.WriteBin(MAGIC);
    offsets[0] := |MAGIC|;
    var offsetsEnd: nat := 1;
    FirstOffset(payloads, input);
    while true
      invariant 1 <= offsetsEnd <= |payloads| + 1
      invariant inpFp.data == old(inpFp.data) && fresh(offsets)
      invariant inpFp.Rest() == Remaining(input, offsetsEnd - 1)
      invariant forall k :: 0 <= k < offsetsEnd ==> offsets[k] == Offset(payloads, k)
      invariant outFp.data == base + MAGIC + Flatten(payloads[..offsetsEnd - 1])
      decreases |payloads| - offsetsEnd
    {
      var inpBuf := inpFp.ReadBin(BLOCK_BYTES);
      NextBlock(input, dict, c, offsetsEnd - 1, inpBuf);
      if 0 == |inpBuf| {
        break;
      }
      var cmpBuf := Encode(c(dict, inpBuf, offsetsEnd - 1));
      var cmpBytes := if |cmpBuf| <= CompressBound(BLOCK_BYTES) then |cmpBuf| else 0;
      if cmpBytes <= 0 {
        return Code(1);
      }
      outFp.WriteBin(cmpBuf);
      offsets[offsetsEnd] := offsets[offsetsEnd - 1] + cmpBytes;
      offsetsEnd := offsetsEnd + 1;
      if offsetsEnd > MAX_BLOCKS {
        return Code(2);
      }
    }
    assert payloads[..|payloads|] == payloads;
    WriteTable(outFp, offsets, offsetsEnd, payloads);
    return Return;
  }

  // The entries of the jump table and their number, behind the last block.
  method WriteTable(outFp: File, offsets: array<int>, offsetsEnd: nat, ghost payloads: seq<seq<byte>>)
    requires Fits(payloads) && offsetsEnd == |payloads| + 1 <= offsets.Length
    requires forall k :: 0 <= k < offsetsEnd ==> offsets[k] == Offset(payloads, k)
    modifies outFp`data
    ensures outFp.data == old(outFp.data) + Table(payloads, |payloads| + 1) + Le32(|payloads| + 1)
  {
    hide Table, Offset, Le32;
    var ptr: nat := 0;
    NoEntries(payloads);
    while ptr != offsetsEnd
      invariant ptr <= offsetsEnd
      invariant outFp.data == old(outFp.data) + Table(payloads, ptr)
    {
      TableStep(payloads, ptr + 1);
      outFp.WriteBin(Le32(offsets[ptr]));
      ptr := ptr + 1;
    }
    outFp.WriteBin(Le32(offsetsEnd));
  }

  lemma FirstOffset(payloads: seq<seq<byte>>, input: seq<byte>)
    ensures Offset(payloads, 0) == |MAGIC| && Flatten(payloads[..0]) == []
    ensures Remaining(input, 0) == input
  {
  }

  lemma NoEntries(payloads: seq<seq<byte>>)
    requires Fits(payloads)
    ensures Table(payloads, 0) == []
  {
  }

  lemma TableStep(payloads: seq<seq<byte>>, n: nat)
    requires Fits(payloads) && 1 <= n <= |payloads| + 1
    ensures Table(payloads, n) == Table(payloads, n - 1) + Le32(Offset(payloads, n - 1))
  {
  }

  lemma PayloadIs(input: seq<byte>, dict: seq<byte>, c: Compressor, k: nat)
    requires Sound(c) && k < NumBlocks(|input|)
    ensures WellFormed(c(dict, Chunk(input, k), k))
    ensures Payload(input, dict, c, k) == Encode(c(dict, Chunk(input, k), k))
    ensures Payloads(input, dict, c, NumBlocks(|input|))[k] == Payload(input, dict, c, k)
  {
  }

  // A full read gets the next block of the input.
  lemma ReadChunk(input: seq<byte>, k: nat, got: seq<byte>)
    requires k <= NumBlocks(|input|) && got != []
    requires var rest := input[Min(k * BLOCK_BYTES, |input|)..]; got == rest[..Min(BLOCK_BYTES, |rest|)]
    ensures k < NumBlocks(|input|) && got == Chunk(input, k)
  {
  }

  // The dictionary at `at` and the output buffer at `base` in one memory,
  // without overlap.
  ghost predicate Placed(mem: seq<byte>, dict: seq<byte>, at: nat, base: nat) {
    && at + |dict| <= |mem| && base + BLOCK_BYTES <= |mem|
    && (at + |dict| <= base || base + BLOCK_BYTES <= at)
    && mem[at..at + |dict|] == dict
  }

  // The decoder's context as LZ4_setStreamDecode leaves it.
  ghost predicate WithDictionary(mem: seq<byte>, dict: seq<byte>, ctx: Context, at: nat, base: nat) {
    Placed(mem, dict, at, base) && ctx == Context(at + |dict|, |dict|, 0, 0)
  }

  // Decoding with a dictionary in memory, adjacent to the output or not, is
  // decoding over the dictionary as history, errors included.
  lemma {:induction false} DictionaryReplay(mem: seq<byte>, dict: seq<byte>, ctx: Context, at: nat, base: nat, ops: seq<Op>)
    requires WithDictionary(mem, dict, ctx, at, base) && |ops| <= BLOCK_BYTES
    requires forall i :: 0 <= i < |ops| && ops[i].Copy? ==> ops[i].dist <= MAX_DISTANCE
    ensures Replay(mem, ViewAt(ctx, base), base, ops) ==
            match Expand(dict, ops)
            case None => None
            case Some(m) => Some(Splice(mem, base, m))
    decreases |ops|
  {
    var v := ViewAt(ctx, base);
    if ops == [] {
      assert Splice(mem, base, []) == mem;
    } else {
      var n := |ops| - 1;
      DictionaryReplay(mem, dict, ctx, at, base, ops[..n]);
      var before := Expand(dict, ops[..n]);
      if before.Some? {
        DictionaryStep(mem, dict, ctx, at, base, before.value, ops[n]);
      }
    }
  }

  lemma DictionaryStep(mem: seq<byte>, dict: seq<byte>, ctx: Context, at: nat, base: nat, m: seq<byte>, op: Op)
    requires WithDictionary(mem, dict, ctx, at, base) && |m| < BLOCK_BYTES
    requires op.Copy? ==> op.dist <= MAX_DISTANCE
    ensures var mem1 := Splice(mem, base, m);
            var n := |m|;
            match op
            case Put(b) => mem1[base + n := b] == Splice(mem, base, m + [b])
            case Copy(d) =>
              var a := Locate(ViewAt(ctx, base), base + n, d);
              && (a.Some? <==> 1 <= d <= |dict| + n)
              && (a.Some? ==> a.value < |mem|)
              && (a.Some? ==> mem1[base + n := mem1[a.value]] == Splice(mem, base, m + [(dict + m)[|dict| + n - d]]))
  {
    hide Splice;
    var mem1 := Splice(mem, base, m);
    var n := |m|;
    SpliceAt(mem, base, m);
    if op.Put? {
      SpliceAppend(mem, base, m, op.b);
    } else if 1 <= op.dist <= |dict| + n {
      var a := Locate(ViewAt(ctx, base), base + n, op.dist);
      assert a.Some?;
      SpliceAppend(mem, base, m, (dict + m)[|dict| + n - op.dist]);
      if op.dist <= n {
        assert mem1[a.value] == m[n - op.dist] == (dict + m)[|dict| + n - op.dist];
      } else {
        assert mem1[a.value] == mem[a.value] == mem[at..at + |dict|][|dict| + n - op.dist]
            == (dict + m)[|dict| + n - op.dist];
      }
    }
  }

  // One call of the decoder after loading the dictionary.
  lemma DictionaryDecompress(mem: seq<byte>, dict: seq<byte>, ctx: Context, at: nat, base: nat, payload: seq<byte>)
    requires WithDictionary(mem, dict, ctx, at, base)
    ensures ctx.Valid(|mem|)
    ensures match Decompress(ctx, mem, payload, base, BLOCK_BYTES)
            case Failed => DecodeBlock(dict, payload).None?
            case Decoded(n, after, _) =>
              var m := DecodeBlock(dict, payload);
              && m.Some? && n == |m.value|
              && after == Splice(mem, base, m.value)
  {
    var block := Parse(payload);
    if block.Some? && |Ops(block.value)| <= BLOCK_BYTES {
      OpsDistances(block.value);
      DictionaryReplay(mem, dict, ctx, at, base, Ops(block.value));
    }
  }

  lemma ReadIntsStep(file: seq<byte>, pos: nat, count: nat)
    requires pos + 4 * count + 4 <= |file|
    ensures ReadInts(file, pos, count + 1) ==
            ReadInts(file, pos, count) + [FromLe32(file[pos + 4 * count..pos + 4 * count + 4])]
  {
  }

  // The first `count` entries of the table.
  method ReadTable(inpFp: File, offsets: array<int>, count: nat)
    requires count <= offsets.Length && inpFp.pos + 4 * count <= |inpFp.data|
    modifies inpFp`pos, offsets
    ensures offsets[..count] == ReadInts(inpFp.data, old(inpFp.pos), count)
  {
    hide ReadInts, FromLe32;
    ghost var start := inpFp.pos;
    NoInts(inpFp.data, start);
    var block := 0;
    while block < count
      invariant 0 <= block <= count
      invariant inpFp.data == old(inpFp.data) && inpFp.pos == start + 4 * block
      invariant offsets[..block] == ReadInts(inpFp.data, start, block)
    {
      ReadIntsStep(inpFp.data, start, block);
      var got := inpFp.ReadBin(4);
      assert got == inpFp.data[start + 4 * block..start + 4 * block + 4];
      offsets[block] := FromLe32(got);
      block := block + 1;
    }
  }

  lemma NoInts(file: seq<byte>, pos: nat)
    requires pos <= |file|
    ensures ReadInts(file, pos, 0) == []
  {
  }

  // Set the decoder up with the dictionary and decode one block.
  method DecodeOne(lz4StreamDecode: StreamDecode, mem: array<byte>, dict: seq<byte>, at: nat, base: nat, cmpBuf: seq<byte>)
    returns (decBytes: int, decBuf: seq<byte>)
    requires Placed(mem[..], dict, at, base)
    modifies lz4StreamDecode, mem
    ensures match DecodeBlock(dict, cmpBuf)
            case None => decBytes <= 0
            case Some(m) =>
              decBytes == |m| && decBuf == m && mem[base..base + decBytes] == m && Placed(mem[..], dict, at, base)
  {
    hide DecodeBlock, Decompress, Splice;
    lz4StreamDecode.SetStreamDecode(at, |dict|);
    ghost var mem0 := mem[..];
    DictionaryDecompress(mem0, dict, lz4StreamDecode.Value(), at, base, cmpBuf);
    decBytes := lz4StreamDecode.DecompressSafeContinue(mem, cmpBuf, base, BLOCK_BYTES);
    decBuf := [];
    if decBytes > 0 {
      decBuf := mem[base..base + decBytes];
      SpliceAt(mem0, base, DecodeBlock(dict, cmpBuf).value);
      assert decBuf == mem[..][base..base + decBytes];
      assert mem[..][at..at + |dict|] == mem0[at..at + |dict|];
    }
  }

  // One round of the decoding loop: either the reader is done with this block
  // (the new length is what is still wanted), or it stops. Bytes written and
  // bytes still wanted add up.
  method DecodeStep(outFp: File, inpFp: File, offsets: array<int>, ghost table: seq<int>, dict: seq<byte>,
                    lz4StreamDecode: StreamDecode, mem: array<byte>, at: nat, base: nat,
                    currentBlock: nat, endBlock: nat, offset: nat, length: nat) returns (stop: Option<Exit>, left: nat)
    requires outFp != inpFp && currentBlock < endBlock < offsets.Length
    requires |table| == endBlock + 1 && forall k :: 0 <= k <= endBlock ==> offsets[k] == table[k]
    requires Placed(mem[..], dict, at, base)
    modifies outFp`data, inpFp`pos, lz4StreamDecode, mem
    ensures old(outFp.data) <= outFp.data
    ensures stop.Some? ==> outFp.data == old(outFp.data)
    ensures stop.None? ==> |outFp.data| - |old(outFp.data)| + left == length && Placed(mem[..], dict, at, base)
    ensures ReadBlocks(inpFp.data, old(inpFp.pos), table, dict, currentBlock, endBlock, offset, length) ==
            if stop.Some? then Reading(stop.value, [])
            else
              var next := ReadBlocks(inpFp.data, inpFp.pos, table, dict, currentBlock + 1, endBlock, 0, left);
              Reading(next.exit, outFp.data[|old(outFp.data)|..] + next.written)
  {
    hide DecodeBlock, CompressBound, ReadBlocks, RestOf;
    left := length;
    ghost var file, pos, base0 := inpFp.data, inpFp.pos, outFp.data;
    var cmpBytes := offsets[currentBlock + 1] - offsets[currentBlock];
    BadSize(file, pos, table, dict, currentBlock, endBlock, offset, length);
    if cmpBytes < 0 || cmpBytes > CompressBound(BLOCK_BYTES) {
      return Some(Undefined), left;
    }
    var cmpBuf := inpFp.ReadBin(cmpBytes);
    ReadBlocksCases(file, pos, table, dict, currentBlock, endBlock, offset, length, cmpBuf);
    if |cmpBuf| != cmpBytes {
      return Some(Code(4)), left;
    }
    var decBytes, decBuf := DecodeOne(lz4StreamDecode, mem, dict, at, base, cmpBuf);
    if decBytes <= 0 {
      return Some(Code(5)), left;
    }
    if decBytes < offset {
      return Some(Undefined), left;
    }
    // Only what lies in the range is written.
    var blockLength := Min(length, decBytes - offset);
    var piece := decBuf[offset..offset + blockLength];
    outFp.WriteBin(piece);
    assert outFp.data[|base0|..] == piece;
    return None, length - blockLength;
  }

  // The decoding loop: `mem` holds the dictionary and the output buffer. The
  // bytes written and the length that is left add up, however it ends.
  method DecodeBlocks(outFp: File, inpFp: File, offsets: array<int>, ghost table: seq<int>, dict: seq<byte>,
                      mem: array<byte>, at: nat, base: nat,
                      currentBlock0: nat, endBlock: nat, offset0: nat, length0: nat) returns (exit: Exit, length: nat)
    requires outFp != inpFp && currentBlock0 <= endBlock < offsets.Length
    requires |table| == endBlock + 1 && forall k :: 0 <= k <= endBlock ==> offsets[k] == table[k]
    requires Placed(mem[..], dict, at, base)
    modifies outFp`data, inpFp`pos, mem
    ensures var r := ReadBlocks(inpFp.data, old(inpFp.pos), table, dict, currentBlock0, endBlock, offset0, length0);
            exit == r.exit && outFp.data == old(outFp.data) + r.written
    ensures |outFp.data| - |old(outFp.data)| + length == length0
  {
    hide ReadBlocks;
    var currentBlock, offset := currentBlock0, offset0;
    length := length0;
    var lz4StreamDecode := new StreamDecode();
    ghost var total := ReadBlocks(inpFp.data, inpFp.pos, table, dict, currentBlock, endBlock, offset, length);
    ghost var written := [];
    while currentBlock < endBlock
      invariant currentBlock <= endBlock && offset >= 0 && length >= 0
      invariant fresh(lz4StreamDecode) && Placed(mem[..], dict, at, base)
      invariant outFp.data == old(outFp.data) + written
      invariant |written| + length == length0
      invariant var r := ReadBlocks(inpFp.data, inpFp.pos, table, dict, currentBlock, endBlock, offset, length);
                total == Reading(r.exit, written + r.written)
    {
      ghost var before := outFp.data;
      var stop, left := DecodeStep(outFp, inpFp, offsets, table, dict, lz4StreamDecode, mem, at, base,
                                   currentBlock, endBlock, offset, length);
      if stop.Some? {
        return stop.value, length;
      }
      ghost var piece := outFp.data[|before|..];
      ghost var next := ReadBlocks(inpFp.data, inpFp.pos, table, dict, currentBlock + 1, endBlock, 0, left);
      assert outFp.data == before + piece;
      assert written + (piece + next.written) == written + piece + next.written;
      written := written + piece;
      offset := 0;
      length := left;
      currentBlock := currentBlock + 1;
    }
    NoBlocks(inpFp.data, inpFp.pos, table, dict, endBlock, offset, length);
    return Return, length;
  }

  lemma NoBlocks(file: seq<byte>, pos: nat, offsets: seq<int>, dict: seq<byte>, end: nat, offset: nat, length: nat)
    requires end < |offsets|
    ensures ReadBlocks(file, pos, offsets, dict, end, end, offset, length) == Reading(Return, [])
  {
  }

  lemma BadSize(file: seq<byte>, pos: nat, offsets: seq<int>, dict: seq<byte>, cur: nat, end: nat, offset: nat, length: nat)
    requires cur < end < |offsets|
    ensures var cmpBytes := offsets[cur + 1] - offsets[cur];
            cmpBytes < 0 || cmpBytes > CompressBound(BLOCK_BYTES) ==>
              ReadBlocks(file, pos, offsets, dict, cur, end, offset, length) == Reading(Undefined, [])
  {
    hide DecodeBlock, CompressBound;
  }

  lemma ReadBlocksCases(file: seq<byte>, pos: nat, offsets: seq<int>, dict: seq<byte>,
                        cur: nat, end: nat, offset: nat, length: nat, payload: seq<byte>)
    requires cur < end < |offsets| && 0 <= offsets[cur + 1] - offsets[cur] <= CompressBound(BLOCK_BYTES)
    requires payload == Next(RestOf(file, pos), offsets[cur + 1] - offsets[cur])
    ensures var cmpBytes := offsets[cur + 1] - offsets[cur];
            var m := DecodeBlock(dict, payload);
            ReadBlocks(file, pos, offsets, dict, cur, end, offset, length) ==
            if |payload| != cmpBytes then Reading(Code(4), [])
            else if m.None? then Reading(Code(5), [])
            else if |m.value| < offset then Reading(Undefined, [])
            else
              var blockLength := Min(length, |m.value| - offset);
              var next := ReadBlocks(file, pos + cmpBytes, offsets, dict, cur + 1, end, 0, length - blockLength);
              Reading(next.exit, m.value[offset..offset + blockLength] + next.written)
  {
    hide DecodeBlock, CompressBound;
  }

  // A memory with the dictionary at `at` and an output buffer at `base`.
  method PlaceDictionary(dict: seq<byte>, at: nat, base: nat) returns (mem: array<byte>)
    requires at + |dict| <= base || base + BLOCK_BYTES <= at
    ensures fresh(mem) && Placed(mem[..], dict, at, base)
  {
    mem := new byte[if at + |dict| <= base then base + BLOCK_BYTES else at + |dict|];
    CopyIn(mem, at, dict);
    assert mem[..][at..at + |dict|] == dict;
  }

  // `at` and `base` are where the dictionary and the output buffer happen to be.
  method TestDecompress(outFp: File, inpFp: File, dict: seq<byte>, offset: nat, length: nat, at: nat, base: nat)
    returns (exit: Exit)
    requires outFp != inpFp && inpFp.pos == 0 && offset + length <= INT32_MAX
    requires at + |dict| <= base || base + BLOCK_BYTES <= at
    modifies outFp`data, inpFp`pos
    ensures var r := ReadRange(inpFp.data, dict, offset, length);
            exit == r.exit && outFp.data == old(outFp.data) + r.written
  {
    hide ReadWithTable, FromLe32, MemCmp;
    if length == 0 {
      return Return;
    }
    var magic := inpFp.ReadBin(|MAGIC|);
    if |magic| != |MAGIC| {
      return Code(1);
    }
    if MemCmp(MAGIC, magic) != 0 {
      return Code(2);
    }
    var ok := inpFp.SeekEnd(-4);
    var tail := inpFp.ReadBin(4);
    assert tail == inpFp.data[|inpFp.data| - 4..];
    exit := DecodeRange(outFp, inpFp, dict, offset, length, at, base, FromLe32(tail));
  }

  // The same once the number of table entries has been read.
  method DecodeRange(outFp: File, inpFp: File, dict: seq<byte>, offset: nat, length: nat, at: nat, base: nat, numOffsets: int)
    returns (exit: Exit)
    requires outFp != inpFp && length >= 1 && offset + length <= INT32_MAX
    requires at + |dict| <= base || base + BLOCK_BYTES <= at
    modifies outFp`data, inpFp`pos
    ensures var r := ReadWithTable(inpFp.data, dict, offset, length, numOffsets);
            exit == r.exit && outFp.data == old(outFp.data) + r.written
  {
    hide ReadBlocks, ReadInts, Placed;
    var currentBlock := offset / BLOCK_BYTES;
    var endBlock := (offset + length - 1) / BLOCK_BYTES + 1;
    if numOffsets <= endBlock {
      return Code(3);
    }
    if 4 * (numOffsets + 1) > INT32_MAX {
      return Undefined;
    }
    var ok := inpFp.SeekEnd(-4 * (numOffsets + 1));
    if !ok {
      return Code(14);
    }
    var offsets := new int[MAX_BLOCKS];
    if endBlock >= MAX_BLOCKS {
      return Undefined;
    }
    ReadTable(inpFp, offsets, endBlock + 1);
    assert offsets[..endBlock + 1][currentBlock] == offsets[currentBlock];
    ok := inpFp.SeekSet(offsets[currentBlock]);
    if !ok {
      return Code(14);
    }
    var mem := PlaceDictionary(dict, at, base);
    var left;
    exit, left := DecodeBlocks(outFp, inpFp, offsets, offsets[..endBlock + 1], dict, mem, at, base,
                               currentBlock, endBlock, offset % BLOCK_BYTES, length);
  }

  // What reading back a range comes to, and that the comparison with the input
  // from the offset on finds no difference.
  lemma RangeOutcome(input: seq<byte>, dict: seq<byte>, buffer: seq<byte>, c: Compressor, offset: nat, length: nat)
    requires Sound(c) && |input| <= MAX_INPUT
    ensures var r := ReadRange(Compressed(input, dict, c), buffer, offset, length);
            && (length >= 1 ==> (r.exit == Code(3) <==> offset + length > NumBlocks(|input|) * BLOCK_BYTES))
            && (Serves(buffer, dict) ==>
                  && (offset + length <= |input| ==> r == Reading(Return, input[offset..offset + length]))
                  && (r.exit == Return ==> Next(RestOf(input, offset), length) == Next(r.written, length))
                  && (length >= 1 ==>
                        (r.exit == Return <==> offset <= |input| && offset + length <= NumBlocks(|input|) * BLOCK_BYTES)))
  {
    hide ReadRange, Compressed, Sound, Serves;
    if length == 0 {
      EmptyRange(Compressed(input, dict, c), buffer, offset);
    } else {
      GivesUpOnlyBehind(input, dict, buffer, c, offset, length);
      if Serves(buffer, dict) {
        RandomAccess(input, dict, buffer, c, offset, length);
        if offset <= |input| {
          assert Next(input[offset..], length) == Slice(input, offset, length);
        }
      }
    }
  }

  // Whatever the dictionaries, the reader gives up with code 3 exactly when the
  // range leaves the last block.
  lemma GivesUpOnlyBehind(input: seq<byte>, dict: seq<byte>, buffer: seq<byte>, c: Compressor, offset: nat, length: nat)
    requires Sound(c) && |input| <= MAX_INPUT && length >= 1
    ensures ReadRange(Compressed(input, dict, c), buffer, offset, length).exit == Code(3) <==>
            offset + length > NumBlocks(|input|) * BLOCK_BYTES
  {
    hide Payload, Compressed, ReadRange, ReadInts, ReadBlocks, Sound, Reads;
    var n := NumBlocks(|input|);
    var file := Compressed(input, dict, c);
    var cur, end := offset / BLOCK_BYTES, (offset + length - 1) / BLOCK_BYTES + 1;
    ReachesLoop(input, dict, buffer, c, offset, length);
    if offset + length <= n * BLOCK_BYTES {
      var offsets := ReadInts(file, |file| - 4 * (n + 2), end + 1);
      LoopExits(file, offsets[cur], offsets, buffer, cur, end, offset % BLOCK_BYTES, length);
    }
  }

  const DICTIONARY_BYTES: nat := 1024

  // main compresses with as many bytes as the dictionary file has, but reads
  // with its whole buffer, whose end the file may not have reached: `rest`.
  // That is right, whatever the compressor and the rest, exactly for a
  // dictionary that fills the buffer or that is too short to be used at all.
  lemma MainReadsBackIffFullOrTiny(dict: seq<byte>, hashUnit: nat)
    requires |dict| <= DICTIONARY_BYTES && hashUnit >= 1
    ensures (forall rest: seq<byte>, c | |rest| == DICTIONARY_BYTES - |dict| && Sound(c) ::
               ReadsBack(LoadDict(dict, hashUnit), dict + rest, c))
            <==> |dict| < hashUnit || |dict| == DICTIONARY_BYTES
  {
    hide Sound, ReadsBack;
    var window := LoadDict(dict, hashUnit);
    if |dict| < hashUnit || |dict| == DICTIONARY_BYTES {
      forall rest: seq<byte>, c | |rest| == DICTIONARY_BYTES - |dict| && Sound(c)
        ensures ReadsBack(window, dict + rest, c)
      {
        BufferServes(dict, rest, hashUnit);
        ReadsBackIffServed(window, dict + rest);
      }
    } else {
      var last := dict[|dict| - 1];
      var other: byte := if last == 0 then 1 else 0;
      var rest := seq(DICTIONARY_BYTES - |dict|, _ => other);
      var buffer := dict + rest;
      assert window == dict;
      assert buffer[|buffer| - |dict|..][|dict| - 1] == other != dict[0..][|dict| - 1];
      assert !Serves(buffer, window);
      ReadsBackIffServed(window, buffer);
      var c :| Sound(c) && !ReadsBack(window, buffer, c);
    }
  }

  lemma BufferServes(dict: seq<byte>, rest: seq<byte>, hashUnit: nat)
    requires |dict| < hashUnit || rest == []
    requires |dict| + |rest| == DICTIONARY_BYTES
    ensures Serves(dict + rest, LoadDict(dict, hashUnit))
  {
  }

  // For instance, with a dictionary of the eight bytes 1 to 8 and the rest of
  // the buffer zero, the bytes 0 to 20 are read back as something else when
  // LZ4 refers to the dictionary for 1 to 8.
  lemma ShortDictionaryIsMisread()
    ensures var dict: seq<byte> := [1, 2, 3, 4, 5, 6, 7, 8];
            var buffer := dict + seq(DICTIONARY_BYTES - |dict|, _ => 0);
            var input: seq<byte> := [0] + dict + [9, 10, 11, 12, 13, 14, 15, 16, 17, 18, 19, 20];
            var b := Block([Sequence([0], 9, 8)], [9, 10, 11, 12, 13, 14, 15, 16, 17, 18, 19, 20]);
            var c := Choosing(dict, input, b);
            && Sound(c) && LoadDict(dict, 8) == dict
            && ReadRange(Compressed(input, dict, c), buffer, 0, |input|).written != input
  {
    hide Sound, Compressed, ReadRange, Describes, Ops;
    var dict: seq<byte> := [1, 2, 3, 4, 5, 6, 7, 8];
    var buffer := dict + seq(DICTIONARY_BYTES - |dict|, _ => 0);
    var last: seq<byte> := [9, 10, 11, 12, 13, 14, 15, 16, 17, 18, 19, 20];
    WholeMatch(dict, buffer, 0, last);
    WrongBlockIsMisread(dict, buffer, [0] + dict + last, Block([Sequence([0], 9, 8)], last));
  }

  // One literal, a match with the whole dictionary, and further literals.
  lemma WholeMatch(dict: seq<byte>, buffer: seq<byte>, x: byte, last: seq<byte>)
    requires MIN_MATCH <= |dict| <= |buffer| && |dict| < MAX_DISTANCE && buffer[|buffer| - |dict|] != dict[0]
    ensures var b := Block([Sequence([x], |dict| + 1, |dict|)], last);
            var input := [x] + dict + last;
            WellFormed(b) && Describes(dict, Ops(b), input) && !Describes(buffer, Ops(b), input)
  {
    var b := Block([Sequence([x], |dict| + 1, |dict|)], last);
    var input := [x] + dict + last;
    assert SequenceOps(b.seqs[1..]) == [];
    assert Ops(b) == Literals([x]) + Copies(|dict| + 1, |dict|) + Literals(last);
    forall i | 0 <= i < |input|
      ensures Yields(dict, input, i, Ops(b)[i])
    {
      if 1 <= i <= |dict| {
        assert Ops(b)[i] == Copy(|dict| + 1);
        assert (dict + input)[i - 1] == dict[i - 1] == input[i];
      }
    }
    assert Ops(b)[1] == Copy(|dict| + 1) && input[1] == dict[0];
    assert (buffer + input)[|buffer| - |dict|] == buffer[|buffer| - |dict|];
    assert !Yields(buffer, input, 1, Ops(b)[1]);
  }

  // main: fill the buffer from the dictionary file, compress, read the range
  // back, and compare it with the input from that offset on.
  method CompressReadCompare(input: seq<byte>, dictFp: File, dict: array<byte>, hashUnit: nat, c: Compressor,
                             offset: nat, length: nat, at: nat, base: nat)
    returns (exit: Exit, read: seq<byte>, cmp: int)
    requires Sound(c) && |input| <= MAX_INPUT && offset + length <= INT32_MAX
    requires dict.Length == DICTIONARY_BYTES && (at + dict.Length <= base || base + BLOCK_BYTES <= at)
    modifies dictFp`pos, dict
    ensures length >= 1 ==> (exit == Code(3) <==> offset + length > NumBlocks(|input|) * BLOCK_BYTES)
    ensures var used := Next(old(dictFp.Rest()), DICTIONARY_BYTES);
            && dict[..] == Splice(old(dict[..]), 0, used)
            && (|used| < hashUnit || |used| == DICTIONARY_BYTES ==> Serves(dict[..], LoadDict(used, hashUnit)))
            && (Serves(dict[..], LoadDict(used, hashUnit)) ==>
                  && (offset + length <= |input| ==> exit == Return && read == input[offset..offset + length])
                  && (exit == Return ==> cmp == 0)
                  && (length >= 1 ==>
                        (exit == Return <==> offset <= |input| && offset + length <= NumBlocks(|input|) * BLOCK_BYTES)))
  {
    hide NumBlocks, Serves, LoadDict, Sound;
    ghost var used := Next(dictFp.Rest(), DICTIONARY_BYTES);
    ghost var before := dict[..];
    var dictSize := dictFp.ReadInto(dict, 0, DICTIONARY_BYTES);
    FilledBuffer(before, used);
    assert dict[..dictSize] == dict[..][..dictSize] == used;
    if |used| < hashUnit || |used| == DICTIONARY_BYTES {
      BufferServes(used, dict[..][|used|..], hashUnit);
      assert used + dict[..][|used|..] == dict[..];
    }
    exit, read, cmp := CompressReadBack(input, dict[..dictSize], hashUnit, dict[..], c, offset, length, at, base);
  }

  // The same for given contents of the buffer.
  method CompressReadBack(input: seq<byte>, dictionary: seq<byte>, hashUnit: nat, buffer: seq<byte>, c: Compressor,
                          offset: nat, length: nat, at: nat, base: nat)
    returns (exit: Exit, read: seq<byte>, cmp: int)
    requires Sound(c) && |input| <= MAX_INPUT && offset + length <= INT32_MAX
    requires at + |buffer| <= base || base + BLOCK_BYTES <= at
    ensures length >= 1 ==> (exit == Code(3) <==> offset + length > NumBlocks(|input|) * BLOCK_BYTES)
    ensures Serves(buffer, LoadDict(dictionary, hashUnit)) ==>
              && (offset + length <= |input| ==> exit == Return && read == input[offset..offset + length])
              && (exit == Return ==> cmp == 0)
              && (length >= 1 ==>
                    (exit == Return <==> offset <= |input| && offset + length <= NumBlocks(|input|) * BLOCK_BYTES))
  {
    hide Compressed, ReadRange, Sound, Serves, LoadDict, NumBlocks;
    ghost var window := LoadDict(dictionary, hashUnit);
    var inpFp := new File(input);
    var lz4Fp := new File([]);
    exit := TestCompress(lz4Fp, inpFp, dictionary, hashUnit, c);
    assert lz4Fp.data == Compressed(input, window, c);
    var lz4File := new File(lz4Fp.data);
    var decFp := new File([]);
    exit := TestDecompress(decFp, lz4File, buffer, offset, length, at, base);
    RangeOutcome(input, window, buffer, c, offset, length);
    read := decFp.data;
    assert read == ReadRange(Compressed(input, window, c), buffer, offset, length).written;
    assert RestOf(read, 0) == read;
    hide RestOf;
    var f0 := new File(input);
    var f1 := new File(decFp.data);
    var ok := f0.SeekSet(offset);
    cmp := CompareLength(f0, f1, length);
  }

  lemma FilledBuffer(before: seq<byte>, used: seq<byte>)
    requires |used| <= |before|
    ensures Splice(before, 0, used)[..|used|] == used
  {
    assert before[..0] == [];
  }
}
