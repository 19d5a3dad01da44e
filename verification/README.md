# LZ4 streaming programs and the EMSA-PSS encoder

This project models two parts of the repository and proves them correct.

**The LZ4 streaming programs** (`open/src/main/cpp/lz4/examples`). Each of them
compresses a file message by message with LZ4's streaming interface and
decompresses it again. The two sides share nothing but a framed byte stream:
a match chosen by the compressor must still lie, at the right address, in a
decoder buffer that goes back to its start at other times. What is modelled:

- `BlockFormat`: the bytes of an LZ4 block and its parser. A block of well-formed
  sequences never exceeds `LZ4_COMPRESSBOUND`, so "cannot compress" never happens.
- `History`: the meaning of a block, byte by byte, over everything sent so far.
- `StreamDecode`: the loop over the bytes of a block, writing into an array in
  place, and the decoder's context with its three cases (no history, same
  segment, new segment).
- `Rings`: which bytes a ring still holds, which a compressor may refer to, which
  a decoder can still read, and one message through both rings.
- `RingSizes`: for which sizes of the two rings every reference stays alive.
- `CompressorWindows`: the windows that the fast and the HC compressor keep for
  themselves, and when they are confined to live bytes.
- `BlockStream`, `RingBuffer`, `LineByLine`, `DoubleBuffer`, `DictionaryAccess`:
  frames, and the compressor, decompressor and `main` of each program, with
  files as byte sequences under a cursor (`Files`).
- `Comparison`: the three ways in which the programs compare files.

Buffers are arrays written in place; each loop is proved against a function of
the bytes it reads, and the round trips are proved about these functions for
every input, every cut into messages and every compressor. A compressor is an
arbitrary function that chooses a block for each message, and may choose
differently for every message. It is assumed to be sound: its block spells the
message using bytes that are live in its own ring. `BlockStream.RepairedIsSound`
shows that nothing is lost by asking for this everywhere. That LZ4's own windows
are enough for it is proved too: a block that the HC compressor finds in its
window is legal in every run (`CompressorWindows.HCBlocksAreLegal`), and so is
one of the fast compressor in a ring of more than two messages
(`CompressorWindows.FastBlocksAreLegal`). Ring sizes and the longest message are
parameters; the constants of the programs are instances.

`RingBuffer` stands for both `blockStreaming_ringBuffer.c` and
`HCStreaming_ringBuffer.c`, which differ only in the compressor they call and in
how they compare files.

**The EMSA-PSS encoder** (`open/src/main/cpp/ovpnutil/osslutil.cpp`).
`PssSpecification` holds the encoding and the verification of sections 9.1.1 and
9.1.2 of RFC 8017 and the MGF1 of its appendix B.2.1; `PssEncoding` holds the
in-place encoder, OpenSSL's in-place MGF1 and the sizes the Java caller passes.
The hash is an arbitrary function of fixed output length, and for the
specification so is the mask generation function; the salt is an argument.

Results that differ from what the code's comments or callers suggest:

- The line program reproduces its input exactly when no byte of it is NUL
  (`LineByLine.RoundTripsIffNulFree`): `strlen` drops the rest of a line.
- The HC comparison reports the first difference except when the chunk that holds
  it is read in different lengths (`Comparison.ReportedIsFirstDifference`).
- The random access reader, asked for a range that starts behind the input but
  within its last block, computes a negative write length
  (`DictionaryAccess.RandomAccess`).
- `main` of the random access program compresses with as many dictionary bytes as
  the file has and decompresses with all 1024 bytes of its buffer. A reader's
  dictionary is right for every sound compressor exactly when it ends like the
  compressor's, as far as distances reach (`DictionaryAccess.ReadsBackIffServed`).
  For `main`, whatever the rest of the buffer holds, that is exactly when the
  dictionary fills the buffer or is too short for `LZ4_loadDict` to use it
  (`DictionaryAccess.MainReadsBackIffFullOrTiny`).
- The fast compressor does not notice a message that covers its whole previous
  lap, and this is its only way to refer to an overwritten byte
  (`CompressorWindows.FastConfinedIffNotCovered`). Over all runs it is confined
  to live bytes exactly when the ring is longer than two messages, or messages
  are shorter than four bytes (`CompressorWindows.FastIsConfinedOverAllRuns`).
- Each of the three conditions that LZ4 documents for a decoder's ring is enough
  (`RingSizes.DocumentedSizesAreLive`), but they ask for more than is needed: the
  exact condition on the sizes is `RingSizes.LivenessIffCompatible`.
- The Java caller of the PSS encoder rounds the modulus length down, which gives
  the encoded length of RFC 8017 exactly for moduli of whole octets
  (`PssEncoding.CallerSizesFitWholeOctets`).

`dafny verify dfyconfig.toml` checks the whole project.

## Model

| member | source | states |
|---|---|---|
| RingBuffer.RoundTrip | open/src/main/cpp/lz4/examples/blockStreaming_ringBuffer.c:48-111 | for every input, every cut into messages of 1 to maxMsg bytes, every sound compressor and any initial buffer contents, decompressing the compressed file gives the input, whenever the ring sizes keep every reference alive |
| RingBuffer.MessageRoundTrip | open/src/main/cpp/lz4/examples/HCStreaming_ringBuffer.c:72-125 | one message keeps both rings, both offsets and the decoder's context synchronised with what has been sent, and is decoded to itself |
| RingBuffer.TestCompress | open/src/main/cpp/lz4/examples/blockStreaming_ringBuffer.c:48-79 | the loop over the ring, wrapping in place, writes exactly the frames of the specified payloads and the final zero |
| RingBuffer.EveryCutIsReached | open/src/main/cpp/lz4/examples/blockStreaming_ringBuffer.c:56-69 | for every cut of the input into messages of 1 to maxMsg bytes there are random numbers with which the compressor writes exactly these messages: payload k is the block chosen for piece k, as message number k |
| RingBuffer.PayloadOfMessage | open/src/main/cpp/lz4/examples/blockStreaming_ringBuffer.c:59-69 | whatever is drawn, message k has the length drawn for it, or what is left of the input, and payload k is the block for that piece |
| RingBuffer.DrawnCut | open/src/main/cpp/lz4/examples/blockStreaming_ringBuffer.c:59-60 | every sequence of random numbers cuts every input into such messages |
| RingBuffer.TestDecompress | open/src/main/cpp/lz4/examples/blockStreaming_ringBuffer.c:82-111 | for any file, malformed ones included, the loop writes exactly what the specified decoder writes before it stops |
| RingBuffer.CompressDecompressCompare | open/src/main/cpp/lz4/examples/HCStreaming_ringBuffer.c:190-224 | compressing, decompressing and comparing always finds the two files identical, with either comparison |
| RingBuffer.ShippedSizesRoundTrip | open/src/main/cpp/lz4/examples/blockStreaming_ringBuffer.c:24-28 | the sizes of the program are an instance of the round trip |
| RingSizes.LivenessIffCompatible | open/src/main/cpp/lz4/lib/lz4.h:446-474 | over all runs every byte the compressor's ring offers is still in the decoder's ring, if and only if the rings have the same size, or decSize - maxMsg >= encSize - 2, or the decoder's laps reach as far as any distance, or encSize is maxMsg + 1 |
| RingSizes.DocumentedSizesAreLive | open/src/main/cpp/lz4/lib/lz4.h:442-468 | each of the three conditions on the decoder's ring that LZ4 documents keeps every reference alive over all runs |
| RingSizes.LivenessOverAllRuns | open/src/main/cpp/lz4/examples/blockStreaming_ringBuffer.c:71-74 | for such sizes, after any messages, every distance on offer for the next message is still held by the decoder's ring |
| RingSizes.ShorterLapLoses | open/src/main/cpp/lz4/examples/blockStreaming_ringBuffer.c:104-108 | for all other sizes with shorter decoder laps there is a run where an offered distance is lost |
| RingSizes.LongerLapLoses | open/src/main/cpp/lz4/examples/blockStreaming_ringBuffer.c:104-108 | for all other sizes with longer decoder laps there is one too |
| Rings.CoupledCovers | open/src/main/cpp/lz4/examples/blockStreaming_ringBuffer.c:104-108 | encoder laps end below the ring size and decoder laps at or above their threshold, so reachable covers offered |
| Rings.RunsAreCoupled | open/src/main/cpp/lz4/examples/HCStreaming_ringBuffer.c:80-84 | the bounds on offsets and lap ends of both rings hold after every run |
| Rings.OffersIffLive | open/src/main/cpp/lz4/lib/lz4.h:371-394 | a distance is on offer exactly when its address has been written in this lap, or lies in the previous lap behind the message |
| Rings.RejectsBeyondLaps | open/src/main/cpp/lz4/lib/lz4.c:2524-2562 | the decoder serves a distance if and only if it stays within the current and the previous lap |
| Rings.LegalBlockExpands | open/src/main/cpp/lz4/lib/lz4.h:371-394 | a block that refers only to live bytes of the encoder's ring means its message after the complete history |
| Rings.RingReplayRefinesExpand | open/src/main/cpp/lz4/examples/HCStreaming_ringBuffer.c:113-125 | byte-by-byte decoding in the ring, from the current or the previous lap while overwriting it, equals decoding over the complete history, self-overlapping and lap-spanning matches included |
| Rings.CopyReadsHistory | open/src/main/cpp/lz4/lib/lz4.c:2250-2280 | the address a copy reads holds the byte of the history that its distance asks for |
| Rings.MessageIsDecoded | open/src/main/cpp/lz4/lib/lz4.h:446-474 | a message is decoded to itself in a ring that covers the encoder's, also when a terminator spoilt the byte behind it |
| Rings.MessageKeepsStep | open/src/main/cpp/lz4/examples/blockStreaming_ringBuffer.c:71-74 | both rings hold the longer history after the message, wrapped or not |
| Rings.TracksNext | open/src/main/cpp/lz4/lib/lz4.c:2529-2559 | the decoder's prefix and external segment are the current and the previous lap after every message |
| CompressorWindows.FastConfinedIffNotCovered | open/src/main/cpp/lz4/lib/lz4.c:1643-1667 | the fast compressor's window holds only live bytes, at the addresses the ring gives them, if and only if the message does not cover a whole previous lap of at least four bytes |
| CompressorWindows.FastOffersExactly | open/src/main/cpp/lz4/lib/lz4.c:1659-1667 | after any run the distances within the fast compressor's reach, exactly: the current lap and, at the start of a lap, what the message leaves of the previous one, up to 64 KB and but for a remainder of less than four; all of a previous lap that the message covers |
| CompressorWindows.FastIsConfinedOverAllRuns | open/src/main/cpp/lz4/lib/lz4.c:1632-1706 | that holds over all runs of a ring if and only if the ring is longer than two messages or messages are shorter than four bytes |
| CompressorWindows.FastLeavesSmallRing | open/src/main/cpp/lz4/lib/lz4.c:1659-1667 | in any other ring, a longest message followed by another one leaves a window of overwritten bytes |
| CompressorWindows.FastKeepsLap | open/src/main/cpp/lz4/lib/lz4.c:1670-1706 | after any run the segment is all of the current lap or, at its start, all of the previous one |
| CompressorWindows.FastBlocksAreLegal | open/src/main/cpp/lz4/lib/lz4.c:1632-1706 | in rings of more than two messages, a block that spells its message from the fast compressor's window is legal in every run |
| CompressorWindows.HCOffersExactlyLive | open/src/main/cpp/lz4/lib/lz4hc.c:1093-1148 | the HC compressor's window is exactly the live bytes, but for a remainder of less than four, at the addresses the ring gives them |
| CompressorWindows.HCIsConfinedOverAllRuns | open/src/main/cpp/lz4/lib/lz4hc.c:1111-1148 | over all runs of any ring, every byte within the HC compressor's reach is live, and it is read at the ring's address |
| CompressorWindows.HCBlocksAreLegal | open/src/main/cpp/lz4/lib/lz4hc.c:1111-1148 | a block that spells its message from the HC compressor's window is legal in every run of any ring |
| StreamDecode.ReplayRefinesExpand | open/src/main/cpp/lz4/lib/lz4.c:2250-2280 | if every copy reads history not yet overwritten, decoding in memory writes the expansion and nothing else |
| StreamDecode.StreamDecode.DecompressSafeContinue | open/src/main/cpp/lz4/lib/lz4.c:2524-2562 | the three cases of the streaming decoder leave exactly the specified memory and context; a failing call changes nothing outside its output and leaves the context, but for the old prefix noted as external segment |
| StreamDecode.StreamDecode.SetStreamDecode | open/src/main/cpp/lz4/lib/lz4.c:2482-2495 | a dictionary becomes the prefix, without external segment |
| StreamDecode.DecompressGeneric | open/src/main/cpp/lz4/lib/lz4.c:2113-2330 | the loop over the bytes of a block, with a cursor in the input and one in the output, reads token, lengths, literals, distance and match and copies them in place, or fails, exactly as the specification says; nothing outside the output is changed |
| StreamDecode.DecodesSequence | open/src/main/cpp/lz4/lib/lz4.c:2147-2330 | decoding the bytes of a sequence and of a tail writes the literals, then the match, each of its bytes equal to the one at its distance before it, then what decoding the tail writes behind them; it fails if the sequence does not fit or reaches back too far |
| StreamDecode.DecodesLast | open/src/main/cpp/lz4/lib/lz4.c:2175-2224 | the literals at the end of a block are written as they are, if they fit |
| StreamDecode.ReplayCopies | open/src/main/cpp/lz4/lib/lz4.c:2250-2330 | a match is copied in full if and only if its first byte can be located; where it overlaps its source it repeats itself |
| StreamDecode.ReadVariableLength | open/src/main/cpp/lz4/lib/lz4.c:1904-1930 | a length extension is the sum of its bytes up to the first that is not 255 |
| History.ExpandIffDescribes | open/src/main/cpp/lz4/lib/lz4.c:2282-2330 | replaying a block is solving its copy equations: the message is the only solution |
| BlockFormat.ParseRoundTrip | open/src/main/cpp/lz4/lib/lz4.c:1094-1192 | every well-formed block is parsed back from its bytes |
| BlockFormat.SequenceBytes | open/src/main/cpp/lz4/lib/lz4.c:1094-1192 | the bytes of a sequence, one by one: both halves of the token, the length extensions as 255s and a remainder, and the distance with its low byte first |
| BlockFormat.ParsedIsWellFormed | open/src/main/cpp/lz4/lib/lz4.c:2226-2248 | every block that can be parsed is well-formed if and only if it has no distance of zero |
| BlockFormat.EncodeWithinBound | open/src/main/cpp/lz4/lib/lz4.h:212-219 | no block is longer than LZ4_COMPRESSBOUND of its message |
| BlockStream.FrameBytes | open/src/main/cpp/lz4/examples/blockStreaming_ringBuffer.c:30-69 | the file, byte by byte: each payload behind its length in two or four bytes, low byte first, and zeros at the end |
| BlockStream.FramesRoundTrip | open/src/main/cpp/lz4/examples/blockStreaming_ringBuffer.c:68-98 | nonempty payloads that fit the prefix are read back exactly from the length-prefixed, zero-terminated stream |
| BlockStream.NarrowPrefixIsExact | open/src/main/cpp/lz4/examples/blockStreaming_lineByLine.c:70-70 | the 16-bit prefix keeps a length exactly when it is at most 65535 |
| BlockStream.BlockFits | open/src/main/cpp/lz4/examples/blockStreaming_ringBuffer.c:64-67 | a sound compressor's block is nonempty and fits the compress bound of the longest message |
| BlockStream.RepairedIsSound | open/src/main/cpp/lz4/lib/lz4.h:371-394 | any compressor agrees with a sound one wherever its choices are legal |
| BlockStream.ReadFrame | open/src/main/cpp/lz4/examples/blockStreaming_ringBuffer.c:93-98 | reading one prefix and payload, or stopping, as the specified reader does |
| LineByLine.RoundTripsIffNulFree | open/src/main/cpp/lz4/examples/blockStreaming_lineByLine.c:37-121 | the decompressed file equals the input if and only if the input has no NUL byte, for every sound compressor |
| LineByLine.LineRoundTrip | open/src/main/cpp/lz4/examples/blockStreaming_lineByLine.c:66-76 | a line is decoded to itself, both rings stay at the same offset and lap, and the byte spoilt by the terminator is never read |
| LineByLine.NulShortens | open/src/main/cpp/lz4/examples/blockStreaming_lineByLine.c:59-64 | from any state no more is written than was read, and less if a NUL was read |
| LineByLine.Fgets | open/src/main/cpp/lz4/examples/blockStreaming_lineByLine.c:61-62 | fgets takes a line or what fits and writes it with its terminator, over the ring |
| LineByLine.LineEnds | open/src/main/cpp/lz4/examples/blockStreaming_lineByLine.c:61-62 | what fgets takes has a newline at most as its last byte, and ends there, with the input, or where there is no more room |
| LineByLine.PayloadOfLine | open/src/main/cpp/lz4/examples/blockStreaming_lineByLine.c:56-73 | payload k is the block chosen for line k up to its first NUL, as message number k |
| LineByLine.TestCompress | open/src/main/cpp/lz4/examples/blockStreaming_lineByLine.c:37-83 | the loop writes exactly the frames of the specified payloads and the final zero |
| LineByLine.TestDecompress | open/src/main/cpp/lz4/examples/blockStreaming_lineByLine.c:86-121 | for any file the loop writes exactly what the specified decoder writes |
| LineByLine.CompressDecompressCompare | open/src/main/cpp/lz4/examples/blockStreaming_lineByLine.c:173-208 | the comparison finds no difference if and only if the input has no NUL byte |
| LineByLine.ShippedSizesFit | open/src/main/cpp/lz4/examples/blockStreaming_lineByLine.c:150-153 | the sizes of the program are an instance, and its blocks fit the 16-bit prefix |
| DoubleBuffer.RoundTrip | open/src/main/cpp/lz4/examples/blockStreaming_doubleBuffer.c:39-112 | for every input and every sound compressor over the two slots, the decompressed file equals the input |
| DoubleBuffer.BlockRoundTrip | open/src/main/cpp/lz4/examples/blockStreaming_doubleBuffer.c:99-110 | a block is decoded to itself, and after a full one both programs are at the same other slot |
| DoubleBuffer.OtherSlotIsPreviousBlock | open/src/main/cpp/lz4/examples/blockStreaming_doubleBuffer.c:49-68 | from the second block on, the other slot holds exactly the previous block on both sides |
| DoubleBuffer.PayloadOfBlock | open/src/main/cpp/lz4/examples/blockStreaming_doubleBuffer.c:49-68 | payload k is the block chosen for the k-th piece of block bytes, the last one possibly shorter, as message number k |
| DoubleBuffer.TestCompress | open/src/main/cpp/lz4/examples/blockStreaming_doubleBuffer.c:39-71 | the loop over the toggled slots writes exactly the frames of the specified payloads and the final zero |
| DoubleBuffer.TestDecompress | open/src/main/cpp/lz4/examples/blockStreaming_doubleBuffer.c:74-112 | for any file the loop writes exactly what the specified decoder writes |
| DoubleBuffer.CompressDecompressCompare | open/src/main/cpp/lz4/examples/blockStreaming_doubleBuffer.c:158-199 | compressing, decompressing and comparing always finds the two files identical |
| DoubleBuffer.ShippedBlockIsUsable | open/src/main/cpp/lz4/examples/blockStreaming_doubleBuffer.c:16-19 | the block size of the program is an instance |
| DictionaryAccess.RandomAccess | open/src/main/cpp/lz4/examples/dictionaryRandomAccess.c:105-170 | for every input that fits the table, dictionary, reader's dictionary that serves it, sound compressor and nonempty range: exit code 3 exactly when the range leaves the last block, an undefined negative length exactly when it starts behind the input within that block, else the slice of the input |
| DictionaryAccess.InRangeReadsSlice | open/src/main/cpp/lz4/examples/dictionaryRandomAccess.c:118-169 | a range within the input, empty or not, is read back as input[offset..offset + length] |
| DictionaryAccess.BlocksReadBack | open/src/main/cpp/lz4/examples/dictionaryRandomAccess.c:145-169 | the decoding loop writes the slice from any block on |
| DictionaryAccess.RoundProgresses | open/src/main/cpp/lz4/examples/dictionaryRandomAccess.c:161-167 | every round writes at least one byte and no more than its block has from its entry on, only the first block is entered behind its start, and for a range within the input the length left is positive before every block and 0 after the last |
| DictionaryAccess.RoundOfLoop | open/src/main/cpp/lz4/examples/dictionaryRandomAccess.c:146-168 | a round adds its part of the chunk and passes on the length that is left then |
| DictionaryAccess.LoopComesToRound | open/src/main/cpp/lz4/examples/dictionaryRandomAccess.c:145-169 | the loop comes to every block of the range, and what it has written by then is the input up to there |
| DictionaryAccess.OffsetsDelimitPayloads | open/src/main/cpp/lz4/examples/dictionaryRandomAccess.c:68-93 | offsets start at 4, strictly increase, delimit the payloads in the file, and the last is where the table starts |
| DictionaryAccess.TailRoundTrip | open/src/main/cpp/lz4/examples/dictionaryRandomAccess.c:128-140 | the seeks from the end of the file find the count and the table, and the entries are read back |
| DictionaryAccess.PayloadsFit | open/src/main/cpp/lz4/examples/dictionaryRandomAccess.c:86-92 | for inputs of at most MAX_BLOCKS - 1 blocks the table suffices and the offsets are 32-bit |
| DictionaryAccess.PayloadIs | open/src/main/cpp/lz4/examples/dictionaryRandomAccess.c:70-83 | payload k is the block chosen for the k-th chunk with the dictionary alone, as block number k |
| DictionaryAccess.PayloadDecodes | open/src/main/cpp/lz4/examples/dictionaryRandomAccess.c:156-160 | with any dictionary that serves the compressor's, each payload decodes to its chunk of the input, independently of the others |
| DictionaryAccess.DictionaryReplay | open/src/main/cpp/lz4/examples/dictionaryRandomAccess.c:155-160 | decoding in memory, with the dictionary anywhere outside the output buffer, equals decoding over the dictionary as history, failures included |
| DictionaryAccess.ReadsBackIffServed | open/src/main/cpp/lz4/examples/dictionaryRandomAccess.c:73-74 | for every dictionary of the compressor and of the reader: all ranges of all inputs are read back for all sound compressors if and only if the two end alike, as far as distances reach |
| DictionaryAccess.WrongBlockIsMisread | open/src/main/cpp/lz4/examples/dictionaryRandomAccess.c:155-160 | wherever a block means something else after the reader's dictionary, the reader writes something else |
| DictionaryAccess.MainReadsBackIffFullOrTiny | open/src/main/cpp/lz4/examples/dictionaryRandomAccess.c:228-254 | main reads everything back, for all sound compressors and all contents of the rest of its buffer, if and only if the dictionary fills the buffer or is shorter than the hash unit of LZ4_loadDict |
| DictionaryAccess.ShortDictionaryIsMisread | open/src/main/cpp/lz4/examples/dictionaryRandomAccess.c:250-254 | a dictionary of 8 bytes, a match of 8 and 12 literals that are read back as something else |
| DictionaryAccess.GivesUpOnlyBehind | open/src/main/cpp/lz4/examples/dictionaryRandomAccess.c:132-132 | whatever the dictionaries, exit code 3 is taken exactly for ranges that leave the last block |
| DictionaryAccess.FirstExits | open/src/main/cpp/lz4/examples/dictionaryRandomAccess.c:118-132 | for any file, exit codes 1, 2 and 3 are taken exactly for a file of less than four bytes, one that does not start with TEST, and one whose last number is not above the last block wanted |
| DictionaryAccess.LoadDictKeepsEnough | open/src/main/cpp/lz4/lib/lz4.c:1541-1576 | LZ4_loadDict keeps the last 64 KB of a dictionary of at least one hash unit, and a reader's dictionary serves that part if and only if it serves the whole |
| DictionaryAccess.TestCompress | open/src/main/cpp/lz4/examples/dictionaryRandomAccess.c:56-102 | with what LZ4_loadDict keeps of the dictionary, magic, blocks and jump table are written as specified, and neither error exit is taken |
| DictionaryAccess.DecodeStep | open/src/main/cpp/lz4/examples/dictionaryRandomAccess.c:146-168 | one round of the loop reads, decodes and writes as specified or stops; bytes written and length left add up to the length wanted |
| DictionaryAccess.DecodeBlocks | open/src/main/cpp/lz4/examples/dictionaryRandomAccess.c:145-169 | the loop writes and ends as specified for any file; the bytes it has written and the length it returns as left add up |
| DictionaryAccess.TestDecompress | open/src/main/cpp/lz4/examples/dictionaryRandomAccess.c:105-170 | for any file, the reader writes and exits as specified |
| DictionaryAccess.CompressReadBack | open/src/main/cpp/lz4/examples/dictionaryRandomAccess.c:235-277 | for the dictionary bytes used and the contents of the whole buffer: if the buffer serves them, the range is read back, the comparison finds no difference, and the exits are characterised exactly; exit code 3 is characterised in any case |
| DictionaryAccess.CompressReadCompare | open/src/main/cpp/lz4/examples/dictionaryRandomAccess.c:228-277 | the same from the dictionary file on, with a buffer of arbitrary contents that the file fills as far as it goes; a full buffer and a dictionary too short to be used always serve |
| Comparison.Compare | open/src/main/cpp/lz4/examples/blockStreaming_ringBuffer.c:114-132 | 0 exactly when what is left of the two files is the same |
| Comparison.CompareReporting | open/src/main/cpp/lz4/examples/HCStreaming_ringBuffer.c:133-163 | terminates on all files and returns the specified position, 0 for identical files |
| Comparison.ReportedIsFirstDifference | open/src/main/cpp/lz4/examples/HCStreaming_ringBuffer.c:145-157 | for different files the result is one more than the first differing position exactly when the chunk holding it is read in the same length from both, or one file is a prefix of the other |
| Comparison.ReportedCanBeLate | open/src/main/cpp/lz4/examples/HCStreaming_ringBuffer.c:145-150 | files that differ in their first byte can be reported as differing later |
| Comparison.CompareLength | open/src/main/cpp/lz4/examples/dictionaryRandomAccess.c:173-195 | 0 exactly when the next length bytes, or as many as are left, are the same |
| PssSpecification.VerifyAcceptsExactlyEncodings | open/src/main/cpp/ovpnutil/osslutil.cpp:80-140 | for every hash, mask generation function and salt, the verifier accepts a message and recovers the salt if and only if the message is the encoding with that salt |
| PssSpecification.EncodedOctets | open/src/main/cpp/ovpnutil/osslutil.cpp:101-140 | an encoded message octet by octet: trailer 0xbc, before it the hash of eight zeros, message hash and salt, and in front of that zeros, 0x01 and the salt, each XORed with the mask octet of that hash; the first one modulo the power of two that is left for it |
| PssSpecification.AcceptedHash | open/src/main/cpp/ovpnutil/osslutil.cpp:101-114 | whatever is accepted holds the hash of eight zeros, the message hash and the recovered salt before its trailer |
| PssSpecification.AcceptedTwiceIsCollision | open/src/main/cpp/ovpnutil/osslutil.cpp:107-111 | an encoded message accepted for two message hashes gives two different inputs of the hash function with the same hash |
| PssSpecification.MaskOctet | open/src/main/cpp/openssl/crypto/rsa/rsa_oaep.c:349-372 | octet k of a mask is octet k mod hLen of the hash of the seed and of the four octets whose big-endian value is k div hLen |
| PssSpecification.CounterValue | open/src/main/cpp/openssl/crypto/rsa/rsa_oaep.c:350-353 | read as a big-endian number, the counter of block i is i, for all i below 2^32 |
| PssSpecification.KeepLowValue | open/src/main/cpp/ovpnutil/osslutil.cpp:135-136 | clearing the leading bits of an octet is the remainder by the power of two that the others can hold |
| PssSpecification.SeparatorSurvives | open/src/main/cpp/ovpnutil/osslutil.cpp:129-136 | clearing the top bits never destroys the separator, even when the padding is empty |
| PssEncoding.RsaPss | open/src/main/cpp/ovpnutil/osslutil.cpp:74-142 | the encoder that works in place returns exactly the encoding of RFC 8017, and fails exactly when that does; its first octet is below the power of two, and it holds the hash of eight zeros, message hash and salt before 0xbc |
| PssEncoding.MaskDataBlock | open/src/main/cpp/ovpnutil/osslutil.cpp:118-134 | generating the mask in place and XORing only separator and salt gives the masked data block |
| PssEncoding.XorSeparatorAndSalt | open/src/main/cpp/ovpnutil/osslutil.cpp:129-134 | the pointer ends where H starts and nothing else is changed |
| PssEncoding.Finish | open/src/main/cpp/ovpnutil/osslutil.cpp:135-140 | the first octet becomes its remainder by the power of two, the excess bits being zero, H stays, and the trailer follows |
| PssEncoding.Pkcs1Mgf1 | open/src/main/cpp/openssl/crypto/rsa/rsa_oaep.c:332-374 | the mask written in place is the leading part of the concatenated hash blocks, and nothing else is changed |
| PssEncoding.EncodedMessageVerifies | open/src/main/cpp/ovpnutil/osslutil.cpp:80-92 | encoding succeeds exactly when emLen >= hLen + sLen + 2, has emLen octets with the leading bits zero (the first octet as a number below the power of two), and is accepted with its salt |
| PssEncoding.PadThenVerify | open/src/main/cpp/ovpnutil/osslutil.cpp:29-156 | what the encoder returns has the encoded length and is verified with the salt used |
| PssEncoding.SizesOfModulus | open/src/main/cpp/ovpnutil/osslutil.cpp:80-84 | for the modulus length rounded up, emLen and the cleared bits are those of RFC 8017 |
| PssEncoding.CallerSizesFitWholeOctets | open/src/main/java/de/blinkt/openvpn/VpnProfile.java:1287-1292 | the caller's sizes give the emLen of RFC 8017 exactly for moduli of whole octets |

## Left out

- How LZ4 finds matches, its hash tables, and index renormalisation after 2 GB: a compressor is any sound choice of blocks.
- LZ4's wild copies, which may write a few bytes behind the decoded message: the model's decoder writes exactly the decoded bytes.
- StreamDecode.DecompressGeneric: accepts blocks that break the end-of-block restrictions (last five bytes literal, last match twelve bytes before the end), which LZ4 rejects on some of its paths and its compressors keep; and fails on a match of distance zero, for which LZ4 copies unspecified bytes.
- RingSizes.LivenessIffCompatible: is about single bytes. A match has at least four and does not end a block, so decoder rings a few bytes smaller than that can still do.
- Frames whose length exceeds the payload buffer, which no compressor here writes and which overrun the buffer in C: the model reads them.
- Integer widths inside the programs: offsets stay below the buffer sizes; lengths in the stream and in the jump table are modelled as 32-bit and 16-bit values, in little-endian order.
- File handles, I/O errors, printing, command lines and `rand`: files are byte sequences with a cursor, and message lengths are an arbitrary function.
- The store of one offset too many for inputs of MAX_BLOCKS blocks or more: inputs are limited to MAX_BLOCKS - 1 blocks.
- Negative offsets and lengths, and offset + length beyond 32 bits, as arguments of the range reader.
- The size of LZ4_loadDict's hash unit depends on the platform and is a parameter; where the dictionary and the output buffer lie is one too.
- Messages of one byte with fgets (a size of 1), for which the line program never ends: the longest line must be at least 2.
- In the PSS encoder: the JNI arrays, the choice of the digest, OpenSSL's contexts, allocation and random failures, and the array that is returned after an error; failure is an explicit result, and the salt an argument.
- Excess bits above 7, a modulus longer than the 2048-byte buffer, and a message hash shorter than the digest, which the encoder does not check.
- The generated SWIG classes, decompiled activities, timing programs and page templates: forwarders and user interface.
