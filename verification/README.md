# Telegram native codecs, modelled and proved in Dafny

The native part of this Android client (`app/jni`) carries its own LZ4 library and a few small
kernels that work directly on bytes and pixels. This project models that code in Dafny and proves
what it is for:

- **LZ4 block codec** (`Lz4Format` to `Lz4Stream`). A reference decoder reads the block format byte by
  byte; `Lz4Samples` gives blocks with literal bytes. The real decoder, with its overlapping wide copies
  and its shortcut, agrees with it on every input it accepts, and which those are is told exactly. The
  greedy compressor writes only blocks that decode to the source, whatever the hash function is and
  whatever earlier calls left in the table, one block at a time and in linked streams. Which matches it
  takes (`Lz4Parse`) does not depend on the budget: it answers 0 if and only if the block of its parse
  is larger.
- **LZ4-HC** (`Lz4HcChain`, `Lz4HcMatch`, `Lz4HcOptimal`). The modular chain table finds exactly the
  positions a naive scan finds. The match finder is sound on every path; searching forward it finds the
  longest match of the window, and neither changing to another chain nor jumping through repeated
  patterns loses one. The optimal parser's table, turned round in place, tiles the input, its output
  decodes to it, and it writes literals alone if and only if no four bytes repeat within reach.
- **LZ4 frames** (`FrameFormat` to `FrameRoundTrip`). The meaning of a frame is defined once, and tied to
  literal bytes in `FrameSamples`. The resumable 15-stage decoder produces it however its input is cut
  and however little room each call has, also after it was reset in mid-frame, with one exception that
  is told exactly. The buffering encoder's frames decode to what was fed and announce what was asked for.
- **xxHash** (`XxHash32`, `XxHash64`). Any updates followed by a digest give the one-shot hash, and
  `XxAnswers` has known answers that reach every constant and every rotation.
- **H.264 NAL units** (`Rbsp`, `NalPacket`). Emulation prevention is the inverse of the escaping of
  sections 7.3.1 and 7.4.1 of ITU-T H.264; a packet is split into exactly the units it was made of.
- **Blurs** (`Triangle`, `FastBlur`, `StackBlur`). Two incremental blurs, one on four 16-bit lanes packed
  in a word, one with a circular stack, compute the exact clamped triangular mean.
- **UTF-8** (`Utf8`). The check passes exactly the encodings of Unicode scalar values.

`dafny verify dfyconfig.toml` checks everything.

## What was found

Four places where the code does less than its documentation or its names suggest. Each has a concrete
input and an exact condition among the lemmas.

- `LZ4F_compressBound_internal` keeps the number of blocks in 32 bits. The bound is large enough if and
  only if that number is below 2^32 (`BoundIsSpace`); with 64 KB blocks it is 16 GB short for a source
  of (2^32 - 1) * 65536 + 1 bytes (`ShortBound`).
- In limited mode the block compressor checks the room for the length bytes of a match by `matchCode >> 8`
  and then writes `matchCode / 255` of them, four at a time. `CheckEnough` says for which match codes
  the check is enough, wherever it is made. A content of less than 134665 bytes, or 134664 with history
  in front of it, has no match for which it is not (`Slack` is 0); from there on there is a source of
  every size with which the compressor's first match is written one byte past the capacity
  (`CheckShort`), such as 134660 zeros and five other bytes with a capacity of 535. The length returned
  never exceeds the capacity; what may be touched beyond it is `Slack`, which is nothing for a capacity
  of at least `LZ4_compressBound` and nothing for the blocks of a frame.
- `ff_h2645_packet_split` stops when fewer than four bytes are left. Units with length fields come back
  if and only if the last one takes at least four bytes with its length (`AvccBack`); `ShortUnitLost`
  is a unit that is dropped.
- `LZ4F_resetDecompressionContext` leaves `frameRemainingSize` alone, and only a header that gives a
  size overwrites it. After a frame was aborted, an input is decoded as on a new context if and only if
  nothing was still expected, or the frame gives its size, or its end mark is never reached
  (`ResetIsHarmless`); otherwise all its content comes out and the end is refused. So resetting is
  harmless for every input if and only if nothing was still expected (`ResetIsAlwaysHarmless`);
  `EmptyFrameAfterReset` is the smallest frame that is refused. `DecodeFrame` and `DecodeAfterReset`
  hold for every context, whatever it was reset from.

## How the model is laid out

Pointers are positions in a buffer. A block or an input that is only read is a `seq<byte>`; a buffer
that is written is an `array<byte>`. Objects whose methods update them are classes: `Stream` and
`StreamDecode` (block streams), `Chains` (the HC tables), `Cctx` and `Dctx` (frame contexts), `State`
(the two hashes). Unsigned wrap-around is written out with `% U32`, `% U64` or bit-vectors where it can
occur. Hash functions and checksums are parameters, so every result holds for any of them. In the frame
layer the block decoder is a function parameter of which `GoodEnv` asks only that it depends on the
last 64 KB of history, and for round trips `FormatDecoder` that it decodes the blocks of the format.
The content of a block by the format (`BlockDecoderGood`) is one, and what the library's block decoder
makes of any block, legal or not, with its history in front of it (`SafeDecoderGood`), is another.

## Model

| member | source | states |
|---|---|---|
| Lz4Format.CopyMatchAt | app/jni/lz4/lz4.c:1932-1961 | byte k of a match is the byte one offset before it, over the whole match, overlapping or not |
| Lz4Format.CopyMatchUnique | app/jni/lz4/lz4.c:1932-1961 | any output in which every byte repeats the one an offset back is the reference copy |
| Lz4Copies.CopyMatchInto | app/jni/lz4/lz4.c:1932-1961 | the first eight bytes by the step tables, then wide copies, then the tail near the end: the area up to the end of the match is the reference copy, nothing outside the output area changes, and it fails exactly when the last five bytes would not be left to literals |
| Lz4Copies.CopyFirst8 | app/jni/lz4/lz4.c:1932-1945 | the two step tables turn any offset of at least 1 into a distance at which eight-byte copies repeat the match |
| Lz4Copies.StrideRepeats | app/jni/lz4/lz4.c:313-314 | copying at that distance, a multiple of the offset of at least 8, gives the same bytes as copying at the offset |
| Lz4Copies.CopyNearEnd | app/jni/lz4/lz4.c:1947-1955 | the copy that stops wide writes early writes no further than the end of the match |
| Lz4Decoder.ReadVariableLength | app/jni/lz4/lz4.c:1567-1587 | the 32-bit length reader gives what the format's length field says or reports that input ran out |
| Lz4Decoder.Shortcut | app/jni/lz4/lz4.c:1779-1820 | the combined shortcut is a full step of the reference decoder when it is done, and otherwise has read the literals and the offset |
| Lz4Decoder.CopyLiterals | app/jni/lz4/lz4.c:1831-1858 | literals are copied exactly; the last sequence must end both input and room rules; anything else near the ends is refused |
| Lz4Decoder.DecodeStep | app/jni/lz4/lz4.c:1775-1961 | one turn of the safe loop is one step of the reference decoder, or it fails, exactly when the step is one of those refused: the shortcut refuses fewer |
| Lz4Decoder.RefusedIsIllegal | app/jni/lz4/lz4.c:1822-1961 | a restricted block that decodes is never refused by the general path |
| Lz4Decoder.SafeIsDecode | app/jni/lz4/lz4.c:1775-1961 | what is accepted is what the reference decoder gives |
| Lz4Decoder.SafeContentOfFormat | app/jni/lz4/lz4.c:1775-1961 | every block the format allows is accepted when its content fits |
| Lz4Decoder.RestrictedRoom | app/jni/lz4/lz4.c:400-404 | a block that keeps the end-of-block restrictions has the room for wide copies that the decoder insists on |
| Lz4Decoder.DecompressGeneric | app/jni/lz4/lz4.c:1595-1973 | for any input: no byte outside the output area changes, the result is negative exactly for the blocks that are refused step by step, and otherwise the length of exactly what the reference decoder gives; for any block of the format whose content fits, it is that content |
| Lz4Sequences.DecodeThroughSequences | app/jni/lz4/lz4.c:928-1029 | bytes written for a list of sequences decode to what the sequences say |
| Lz4Sequences.BlockEncodes | app/jni/lz4/lz4.c:1095-1121 | sequences that replay to a prefix, and last literals, are a restricted block that decodes to the whole |
| Lz4Sequences.BlockSize | app/jni/lz4/lz4.h:162-162 | worst-case size: a legal list of sequences and last literals never take more than n + n / 255 + 16 bytes |
| Lz4Emit.EmitMatchLength | app/jni/lz4/lz4.c:1015-1029 | the length bytes of a match, written four at a time, are the length field the decoder reads, and bytes before them are kept |
| Lz4Emit.EmitLiterals | app/jni/lz4/lz4.c:928-953 | token, length bytes and literals are those of the sequence |
| Lz4Samples.SequenceBytes | app/jni/lz4/lz4.c:928-1029 | the literal bytes of a sequence: token, length byte, literals, offset 258 with its low byte first, length byte |
| Lz4Samples.SequenceMeans | app/jni/lz4/lz4.c:1822-1961 | what a block of those bytes decodes to |
| Lz4Samples.OneSequence | app/jni/lz4/lz4.c:400-404 | a block of one sequence and last literals is of the format if and only if its match starts at least 12 bytes before the end and leaves five |
| Lz4Samples.EndOfBlock | app/jni/lz4/lz4.c:400-404 | the same for two blocks given byte by byte |
| Lz4Compressor.Count | app/jni/lz4/lz4.c:526-551 | the number of equal bytes: it stops at the first difference or at the limit |
| Lz4Compressor.FindMatch | app/jni/lz4/lz4.c:845-922 | a match found through the table agrees on four bytes, at a distance that fits an offset and inside the allowed source, for any table whose entries are old positions; it is the first one at the positions tried, with the table that leaves |
| Lz4Compressor.CatchUp | app/jni/lz4/lz4.c:925-926 | a match extended backwards still agrees on every byte, and no further byte agrees |
| Lz4Compressor.TestNext | app/jni/lz4/lz4.c:1036-1087 | a match tried at once at the next position is as good as one found by search, the table stays correct, and what is found is what comes next in the parse |
| Lz4Compressor.EncodeSequence | app/jni/lz4/lz4.c:928-1029 | what is written is the sequence of the literals and of the match up to where it stops; it fails only if that sequence and five last literals do not fit the budget any more |
| Lz4Compressor.LastLiterals | app/jni/lz4/lz4.c:1095-1121 | with the last literals the output is a block for the content, of the size of its parse; 0 if and only if that exceeds the budget |
| Lz4Compressor.CompressGeneric | app/jni/lz4/lz4.c:764-1130 | for every hash function, table and acceleration: the answer is the block of the parse if it fits the budget, and 0 if and only if it does not, so that no check on the way is too strict; the block decodes, after the history, to the content |
| Lz4Compressor.ParseOk | app/jni/lz4/lz4.c:845-1121 | whatever the table holds, the parse replays the content within the restrictions of the format, and its block is no longer than the content as literals |
| Lz4Parse.NeverLonger | app/jni/lz4/lz4.c:928-1121 | no sequences, however many, make a block longer than literals alone |
| Lz4Parse.UniformParse | app/jni/lz4/lz4.c:764-1130 | 13 or more equal bytes without history are one literal, one match and five literals, in 10 + (n + 230) / 255 bytes, for every hash function, table and acceleration |
| Lz4Compressor.CheckEnough | app/jni/lz4/lz4.c:1004-1025 | the check before the length bytes of a match is enough wherever it is made if and only if they reach no further than six bytes and a 256th of the match code |
| Lz4Compressor.CheckRange | app/jni/lz4/lz4.c:1004-1025 | that is so for every match code below 134655 and for none from 394755 on |
| Lz4Compressor.CheckShort | app/jni/lz4/lz4.c:764-1025 | from 134665 bytes on, or 134664 with history, a source of every size and a budget: the search, the catching up and the count of the compressor lead to a match that passes both checks and is written one byte past the budget, for any table and any hash function |
| Lz4Compressor.MatchFits | app/jni/lz4/lz4.c:1004-1025 | how far that can go: not at all for a smaller content, nor when the budget is the bound or one byte less than a content of at most 4 MB |
| Lz4Stream.Stream.constructor | app/jni/lz4/lz4.c:1306-1319 | a new context is empty and fit for any call |
| Lz4Stream.Stream.PrepareTable | app/jni/lz4/lz4.c:714-760 | the table and the first index are kept or cleared as the sizes and types tell; a table that is kept cannot be mistaken: 16-bit indexes will not be truncated, and entries of earlier calls are too far back to match |
| Lz4Stream.Stream.CompressFastReset | app/jni/lz4/lz4.c:1164-1198 | whatever calls went before, the result is the block of the parse, with the table as those calls left it, if it fits the capacity, and 0 if and only if it does not; the block decodes on its own to the source; there is one whenever the source fits as literals, and a run of equal bytes is compressed to a 255th |
| Lz4Stream.Stream.RenormDict | app/jni/lz4/lz4.c:1407-1424 | when indexes are slid down, every entry in the window names the same byte and every other is out of reach |
| Lz4Stream.Stream.CompressFastContinue | app/jni/lz4/lz4.c:1427-1467 | for a block that follows the one before it: the block of the parse if it fits the capacity, and 0 if and only if it does not; it decodes to the source after the bytes the dictionary covers, and the stream is ready for the next block |
| Lz4Stream.StreamDecode.DecompressSafeContinue | app/jni/lz4/lz4.c:2130-2167 | a block that follows the one before it is decoded with all the output so far as history, and refused exactly when that history does not make it one the decoder accepts |
| Lz4Stream.SafeMoreHistory | app/jni/lz4/lz4.c:1596-1973 | with 64 KB of history or more, what is accepted does not depend on what lies in front of them |
| Lz4Stream.EncodesMoreHistory | app/jni/lz4/lz4.c:1596-1973 | a block that decodes after a history decodes to the same after any longer one |
| Lz4Stream.BlockRoundTrip | app/jni/lz4/lz4.c:1164-1198 | compressed on any context and decompressed into any capacity that holds it: the input |
| Lz4Stream.StreamRoundTrip | app/jni/lz4/lz4.c:2130-2167 | any number of non-empty blocks through both ends of a stream come back as they were |
| Lz4HcChain.Chains.Insert | app/jni/lz4/lz4hc.c:117-135 | after inserting up to a position the head table and the chain table, with its indexes modulo 65536 and its deltas clamped to 65535, describe every earlier position |
| Lz4HcChain.ChainComplete | app/jni/lz4/lz4hc.c:117-135 | following the deltas from the head of a hash visits exactly the earlier positions of the window with that hash, latest first |
| Lz4HcChain.PositionsExact | app/jni/lz4/lz4hc.c:117-135 | those positions are strictly decreasing, and a position is among them if and only if it has the hash and is in the window |
| Lz4HcMatch.CountBack | app/jni/lz4/lz4hc.c:139-152 | the number of equal bytes before two positions, up to the limits |
| Lz4HcMatch.Compare | app/jni/lz4/lz4hc.c:252-262 | a candidate is taken with the whole stretch around it; when it is passed over, also by the test of two bytes, no match there is longer than the best one |
| Lz4HcMatch.CountPattern | app/jni/lz4/lz4hc.c:154-184 | how far a four-byte pattern repeats: all of it, and no further |
| Lz4HcMatch.ReverseCountPattern | app/jni/lz4/lz4hc.c:186-204 | how far it repeats backwards |
| Lz4HcMatch.PatternStep | app/jni/lz4/lz4hc.c:304-346 | the jumps inside a repeated byte keep what was found sound, although the length is set without comparing, and pass over nothing longer than what they find or lead to |
| Lz4HcMatch.BetterChain | app/jni/lz4/lz4hc.c:287-302 | among the positions inside the match found, the chain taken next is one that leads furthest back |
| Lz4HcMatch.Follow | app/jni/lz4/lz4hc.c:287-351 | whichever way the search goes on, it leaves nothing longer behind: along the chain, along the chain of later bytes of the match, or through a pattern |
| Lz4HcMatch.TriedNext | app/jni/lz4/lz4hc.c:287-302 | between two indexes of the chain of bytes inside the match there is no longer match |
| Lz4HcMatch.StretchBeaten | app/jni/lz4/lz4hc.c:319-336 | two stretches of one byte that end at different lengths agree for the shorter length and no more |
| Lz4HcMatch.InsertAndGetWiderMatch | app/jni/lz4/lz4hc.c:210-382 | a result longer than asked for agrees on all its bytes, at a distance of 1 to 65535, inside the limits; with enough attempts no position of the window has a longer match when searching forward, with pattern analysis and chain swaps or without, and when looking back without them; with any attempts the nearest candidate has none, with every option; along one chain as many candidates as there are attempts have none |
| Lz4HcOptimal.PriceIsSize | app/jni/lz4/lz4hc.c:1162-1185 | the price of a sequence is the number of bytes it is written with |
| Lz4HcOptimal.FindLongerMatch | app/jni/lz4/lz4hc.c:1193-1213 | the longest match of the window when there are attempts enough, no shorter than the nearest otherwise, or none if none is longer than asked for; 18 bytes of it when decompression speed comes first and it has 19 to 36 |
| Lz4HcOptimal.FirstPrices | app/jni/lz4/lz4hc.c:1266-1300 | the first entries of the table are literals at their price, and then the first match cut to every length, at the price of its sequence; each repeats the source |
| Lz4HcOptimal.LiteralPrices | app/jni/lz4/lz4hc.c:1337-1350 | each of the next three entries is the cheaper of what it was and literals from here on; no other changes |
| Lz4HcOptimal.NotCheaper | app/jni/lz4/lz4hc.c:1337-1350 | literals never replace a match of four bytes at the first position |
| Lz4HcOptimal.MatchPrices | app/jni/lz4/lz4hc.c:1353-1395 | every entry a later match reaches is the better of what it was and the match cut to that length, with the literals in front of it; no other entry changes, the last position moves on if and only if the whole match was taken, and every entry still repeats the source |
| Lz4HcOptimal.ReverseTraversal | app/jni/lz4/lz4hc.c:1404-1422 | the walk back ends, and the links turned round in place are forward steps that tile the positions without gap or overlap, each match step repeating the source; there is a match among them |
| Lz4HcOptimal.EncodeTiles | app/jni/lz4/lz4hc.c:1424-1436 | the steps are written as sequences that replay to the source, at least one if there is a match among them |
| Lz4HcOptimal.EncodeStep | app/jni/lz4/lz4hc.c:403-471 | what is written is the sequence of the literals and the match; it fails only if that and five last literals exceed the budget |
| Lz4HcOptimal.CompressOptimal | app/jni/lz4/lz4hc.c:1216-1466 | at any depth and with any options: the answer is the block of a parse that decodes to the source and is no longer than literals, or 0 because a parse exceeds the budget; with plenty of searches the parse is literals alone only if no four bytes repeat within reach; a run of equal bytes longer than what is taken at once is one match, in 10 + (n + 230) / 255 bytes, and 0 is answered if and only if that does not fit |
| Lz4HcOptimal.RoundTrip | app/jni/lz4/lz4hc.c:1216-1466 | compressed so and decompressed: the source |
| FrameWriter.HeaderRoundTrip | app/jni/lz4/lz4frame.c:1108-1193 | the header parser reads back every field of a written header, whatever follows it |
| FrameWriter.HeaderAnnounces | app/jni/lz4/lz4frame.c:671-701 | a header announces the flags, the block size, the content size and the dictionary it was written for, whatever follows it |
| FrameSamples.PlainHeader | app/jni/lz4/lz4frame.c:210-210 | the seven bytes of the shortest header, read and written, for every checksum |
| FrameSamples.FullHeader | app/jni/lz4/lz4frame.c:1133-1190 | the nineteen bytes of the longest header and every field in them |
| FrameSamples.FlagHeader | app/jni/lz4/lz4frame.c:1137-1154 | the bit of each flag |
| FrameSamples.FieldHeaders | app/jni/lz4/lz4frame.c:1137-1190 | a header with a size alone and one with a dictionary alone |
| FrameSamples.SizedHeader | app/jni/lz4/lz4frame.c:279-287 | the four block sizes by their identifiers |
| FrameSamples.SkippableFrame | app/jni/lz4/lz4frame.c:1115-1131 | the sixteen magic numbers of skippable frames, and how much is skipped |
| FrameSamples.EndMark | app/jni/lz4/lz4frame.c:1475-1501 | four zeros end a frame |
| FrameSamples.RawFrame | app/jni/lz4/lz4frame.c:1475-1536 | a frame of one block that is not compressed: the high bit of its size is set |
| FrameSamples.CompressedFrame | app/jni/lz4/lz4frame.c:1475-1573 | a frame of one compressed block: what the block decoder makes of its bytes, or an error |
| FrameSamples.EmptyFrame | app/jni/lz4/lz4frame.c:1108-1193 | the eleven bytes of the empty frame, with the checksum of the library |
| FrameSamples.UsualFrame | app/jni/lz4/lz4frame.c:1690-1732 | the 22 bytes of a frame for "abc" with its content checksum |
| FrameWriter.CompressedBlock | app/jni/lz4/lz4frame.c:738-761 | a block with its header and checksum is decoded to what the block decoder makes of it |
| FrameWriter.RawBlock | app/jni/lz4/lz4frame.c:738-761 | a block that did not get smaller is decoded to itself |
| FrameWriter.FrameEnds | app/jni/lz4/lz4frame.c:983-1017 | the end mark and the content checksum end a frame if and only if the announced size, modulo 2^64, was that of the content |
| FrameWriter.WholeFrame | app/jni/lz4/lz4frame.c:599-1017 | a header, blocks and an end are a frame for a context that expects nothing, and for every context if and only if the frame gives its size |
| FrameWriter.EmptyFrameAfterReset | app/jni/lz4/lz4frame.c:1690-1693 | an empty frame without a size: complete if nothing was expected, refused otherwise |
| FrameReset.SameUpToEnd | app/jni/lz4/lz4frame.c:1092-1097 | the rest of a frame with and without a size left over: the same if its end mark is not reached, else the same content and a refusal |
| FrameReset.FrameAfterReset | app/jni/lz4/lz4frame.c:1092-1097 | any input after a reset, in terms of the same input on a new context |
| FrameReset.ResetIsHarmless | app/jni/lz4/lz4frame.c:1168-1170 | when the two are the same, exactly, for one input |
| FrameReset.ResetIsHarmlessFor | app/jni/lz4/lz4frame.c:1168-1170 | when they are for every input with that header, exactly |
| FrameReset.ResetIsAlwaysHarmless | app/jni/lz4/lz4frame.c:1092-1097 | when they are for every input, exactly |
| FrameWriter.FrameMeans | app/jni/lz4/lz4frame.c:1108-1193 | a header and blocks mean the content of the blocks, and then whatever follows |
| FrameFormat.HeaderMore | app/jni/lz4/lz4frame.c:1108-1193 | a header that parses or is refused stays so with more input behind it |
| FrameFormat.RawPart | app/jni/lz4/lz4frame.c:1503-1536 | taking part of an uncompressed block does not change what the rest means |
| FrameDecoder.Dctx.constructor | app/jni/lz4/lz4frame.c:1064-1075 | a new context is at a frame header with no history |
| FrameDecoder.Dctx.Reset | app/jni/lz4/lz4frame.c:1092-1097 | between frames, in mid-frame or after an error: the context is at a frame header with no history, and fit for another frame |
| FrameDecoder.Dctx.DecodeHeader | app/jni/lz4/lz4frame.c:1108-1193 | the stage, the target and the frame information after any header, whole or in part, are those of the format's parser; the size expected is that of the header if it gives one, and else the one left over |
| FrameDecoder.Dctx.Allocate | app/jni/lz4/lz4frame.c:1422-1446 | buffers kept from earlier frames are large enough each, although only their sum is compared |
| FrameDecoder.Dctx.DoStoreFrameHeader | app/jni/lz4/lz4frame.c:1406-1420 | header bytes kept from call to call give the same header |
| FrameDecoder.Dctx.DoGetBlockHeader | app/jni/lz4/lz4frame.c:1448-1501 | a block header, whole or in part, leads to the stage the format asks for |
| FrameDecoder.Dctx.DoCopyDirect | app/jni/lz4/lz4frame.c:1503-1536 | part of an uncompressed block is the next content, the checksums are fed and the history is kept |
| FrameDecoder.Dctx.DoGetBlockChecksum | app/jni/lz4/lz4frame.c:1538-1561 | a block checksum is compared with that of the bytes fed, however it arrives |
| FrameDecoder.Dctx.DoGetCBlock | app/jni/lz4/lz4frame.c:1563-1573 | a compressed block that is all in the input is decoded from there |
| FrameDecoder.Dctx.DoStoreCBlock | app/jni/lz4/lz4frame.c:1574-1599 | one that is not is gathered first |
| FrameDecoder.Dctx.DecodeDirect | app/jni/lz4/lz4frame.c:1601-1628 | a block decoded to the output is the next content, whatever the block decoder leaves in the room behind it |
| FrameDecoder.Dctx.PlaceTmpOut | app/jni/lz4/lz4frame.c:1630-1642 | there is room for a whole block in the output buffer behind the history kept there |
| FrameDecoder.Dctx.StoreBlock | app/jni/lz4/lz4frame.c:1644-1666 | a block decoded to the output buffer is all pending and enough history lies in front of it |
| FrameDecoder.Dctx.DoFlushOut | app/jni/lz4/lz4frame.c:1669-1688 | what is handed out and what is still pending make up the block |
| FrameDecoder.Dctx.UpdateDict | app/jni/lz4/lz4frame.c:1279-1342 | after bytes written to the output, the dictionary ends with the last 64 KB of all output |
| FrameDecoder.Dctx.UpdateDictFlush | app/jni/lz4/lz4frame.c:1279-1342 | so it does while a block is handed out from the output buffer, whichever buffer the history is in |
| FrameDecoder.Dctx.Preserve | app/jni/lz4/lz4frame.c:1783-1813 | at the end of a call the history is moved where it survives, and nothing of the meaning of the rest changes |
| FrameDecoder.Dctx.DoGetSuffix | app/jni/lz4/lz4frame.c:1690-1732 | the size is compared with the one announced and the content checksum with that of the content |
| FrameDecoder.Dctx.DoGetSFrameSize | app/jni/lz4/lz4frame.c:1734-1767 | the size of a skippable frame, whole or in part |
| FrameDecoder.Dctx.DoSkip | app/jni/lz4/lz4frame.c:1769-1779 | a skippable frame is skipped, whatever it holds |
| FrameDecoder.Dctx.Step | app/jni/lz4/lz4frame.c:1388-1781 | one turn of the stage loop gives part of the meaning of the input and keeps the rest, and uses input or lowers the rank of the stage; when it stops, the hint is what the field at hand still needs, with a block header where the source adds one |
| FrameDecoder.Dctx.Decompress | app/jni/lz4/lz4frame.c:1364-1818 | a call gives the next part of what all input, now and later, means; it fails only if that meaning is an error, reports nothing used or written then, and leaves a context that can be reset; it stops only for lack of room or of input; bytes outside the room it was given are kept |
| FrameDecoder.Dctx.DecompressUsingDict | app/jni/lz4/lz4frame.c:1825-1836 | the same with a dictionary in front of the frame, which only a call before the blocks can set |
| FrameDecoder.DecodeFrame | app/jni/lz4/lz4frame.c:1364-1836 | chunking independence: any calls, with any cut of the input, any room, and their output in new buffers or behind that of the call before, give the one-shot meaning of the frame on a context with that much left over, fail exactly as it does, finish exactly when it ends, and stop for input only when there is none to go on with |
| FrameDecoder.DecodeAfterReset | app/jni/lz4/lz4frame.c:1092-1836 | the same after a reset at any time, in terms of the meaning on a new context |
| FrameEncoder.OptimalBSID | app/jni/lz4/lz4frame.c:304-316 | the smallest block size, up to the one asked for, that holds the source |
| FrameEncoder.BoundIsSpace | app/jni/lz4/lz4frame.c:324-348 | the bound leaves room for all blocks of a call and for the end of the frame if and only if the number of blocks is below 2^32 |
| FrameEncoder.ShortBound | app/jni/lz4/lz4frame.c:340-346 | a source for which the bound is 16 GB short |
| FrameEncoder.Cctx.Begin | app/jni/lz4/lz4frame.c:599-701 | starts a frame with the header of its preferences, or refuses too little room |
| FrameEncoder.Cctx.MakeBlock | app/jni/lz4/lz4frame.c:738-761 | a block that decodes, after the history, to the bytes it was made of: what the block compressor gives if that is shorter, and else the bytes themselves; the history is all there is, when the new bytes do not overlap it and it is not tiny |
| FrameEncoder.Cctx.CompressContinue | app/jni/lz4/lz4frame.c:774-779 | a linked block is compressed against a history that ends with what was sent last, all of it in the ordinary case, and the new block is added to it |
| FrameEncoder.Cctx.SaveDict | app/jni/lz4/lz4frame.c:806-811 | the last 64 KB of the history move to the buffer, and are the same bytes there |
| FrameEncoder.Cctx.Update | app/jni/lz4/lz4frame.c:822-924 | blocks and buffer together are all the content so far; the output is at most what its blocks take, and at most the room it asked for if their number is below 2^32; it fails only before a frame or for want of room |
| FrameEncoder.Cctx.Flush | app/jni/lz4/lz4frame.c:935-970 | what was buffered becomes a block, and nothing is left |
| FrameEncoder.Cctx.End | app/jni/lz4/lz4frame.c:983-1017 | flushes and ends the frame; with the room it asks for it fails exactly when another size was announced |
| FrameEncoder.EncodeFrame | app/jni/lz4/lz4frame.c:599-1017 | any pieces with any flushes are one frame that means all that was fed, whatever follows it, on a new context or, when the size was announced, on any, and that announces the flags, sizes and dictionary asked for; or an error exactly when another size was announced |
| FrameEncoder.CompressFrame | app/jni/lz4/lz4frame.c:372-415 | the room of the bound is enough for a whole source when its blocks can be counted in 32 bits; the frame means the source and announces what was asked for, but for the size of the source, the smallest sufficient block size and independent blocks when one is enough |
| FrameRoundTrip.HistoryEnd | app/jni/lz4/lz4frame.c:1279-1342 | no block depends on more than the last 64 KB of its history |
| FrameRoundTrip.BlockDecoderGood | app/jni/lz4/lz4frame.c:1602-1667 | the content of a block by the format, if it fits, is a block decoder that the frame decoder can be built on |
| FrameRoundTrip.SafeDecoderGood | app/jni/lz4/lz4.c:1979-1985 | so is what the library's block decoder accepts and gives, and it decodes every block of the format |
| FrameRoundTrip.FormatCompressorGood | app/jni/lz4/lz4frame.c:763-779 | every compressor that writes blocks of the format is one that the frame encoder can be built on |
| FrameRoundTrip.RoundTrip | app/jni/lz4/lz4frame.c:1364-1818 | what is encoded from any pieces is decoded by any calls: they never fail, give back the content from its beginning on, and finish with all of it; on a context with a size left over and a frame that gives none, they give back as much and never finish |
| FrameRoundTrip.IndependentBlock | app/jni/lz4/lz4frame.c:738-772 | a block made with the library's one-shot compressor, into a buffer one byte shorter than its source that is never overrun, decodes to its source; it is stored as it is if and only if the block of the parse is not shorter |
| FrameRoundTrip.LinkedBlock | app/jni/lz4/lz4frame.c:738-779 | so does a linked block made by the streaming compressor, after all that was sent, and it is stored as it is in the same case |
| FrameRoundTrip.CompressFrame | app/jni/lz4/lz4frame.c:372-470 | with the library's own block compressor and any preferences: the frame means the source, fits the bound and announces what was asked for; up to 64 KB of equal bytes take a 255th |
| FrameRoundTrip.WholeRoundTrip | app/jni/lz4/lz4frame.c:428-470 | a source compressed so and decoded by any calls, on any block decoder that decodes the blocks of the format: the source |
| XxStripes.StripesSplit | app/jni/lz4/xxhash.c:362-376 | stripes may be taken in any number of goes |
| XxHash32.Finalize | app/jni/lz4/xxhash.c:290-349 | the switch with its fall-throughs is the loop over words and then bytes |
| XxHash32.XXH32 | app/jni/lz4/xxhash.c:352-389 | the one-shot hash is the hash of the specification |
| XxHash32.State.Update | app/jni/lz4/xxhash.c:452-513 | however the data is cut, the lanes are those of its whole stripes, the buffer holds the rest, and the length is right modulo 2^32 |
| XxHash32.State.Digest | app/jni/lz4/xxhash.c:527-543 | the digest is the hash of all data, also when its length has wrapped |
| XxHash32.Stream | app/jni/lz4/xxhash.c:437-543 | any number of updates of any sizes, then a digest: the one-shot hash of the pieces together |
| XxAnswers32.Nothing | app/jni/lz4/xxhash.c:278-389 | the hash of no bytes is 0x02CC5D05 |
| XxAnswers32.Abc | app/jni/lz4/xxhash.c:278-389 | the hash of "abc" is 0x32D153FF |
| XxAnswers32.PlainDescriptor | app/jni/lz4/xxhash.c:278-389 | the hash of the descriptor of the shortest frame header |
| XxAnswers32.UsualDescriptor | app/jni/lz4/xxhash.c:278-389 | the hash of the descriptor of a usual frame header |
| XxAnswers32.Sentence | app/jni/lz4/xxhash.c:268-389 | the hash of 39 bytes with a seed: two stripes, a word and bytes |
| XxHash64.Finalize | app/jni/lz4/xxhash.c:702-809 | the switch over 32 lengths is the loop over eight-byte words, one four-byte word and bytes |
| XxHash64.XXH64 | app/jni/lz4/xxhash.c:811-852 | the one-shot hash is the hash of the specification |
| XxHash64.State.Update | app/jni/lz4/xxhash.c:912-970 | however the data is cut, the lanes are those of its whole stripes and the buffer holds the rest |
| XxHash64.State.Digest | app/jni/lz4/xxhash.c:981-1003 | the digest is the hash of all data of less than 2^64 bytes |
| XxHash64.Stream | app/jni/lz4/xxhash.c:898-1003 | any number of updates of any sizes, then a digest: the one-shot hash of the pieces together |
| XxAnswers64.Nothing | app/jni/lz4/xxhash.c:688-852 | the hash of no bytes is 0xEF46DB3751D8E999 |
| XxAnswers64.Greeting | app/jni/lz4/xxhash.c:688-852 | the hash of 13 bytes with a seed: a word of eight, a word of four and a byte |
| XxAnswers64.Sentence | app/jni/lz4/xxhash.c:670-852 | the hash of 39 bytes with a seed: a stripe, a word of four and bytes |
| Rbsp.ExtractRbsp | app/jni/gifvideo.cpp:255-331 | the scan in steps of two and the copy that skips ahead give the same payload, the same consumed length and the same skipped positions as one pass over every byte; what lies in front in the buffer is kept |
| Rbsp.ExtractedBytes | app/jni/gifvideo.cpp:265-283 | a 3 behind two zeros is taken out; a 1 or a 2 there ends the unit |
| Rbsp.KeptBytes | app/jni/gifvideo.cpp:265-283 | a zero or a byte above 3 behind two zeros stays |
| Rbsp.EscapedBytes | app/jni/gifvideo.cpp:255-331 | what the escaping puts in, given byte by byte |
| Rbsp.Unescape | app/jni/gifvideo.cpp:255-331 | the payload of an escaped unit is what was escaped, and it ends where the unit ends, also before a start code |
| Rbsp.EscapeLegal | app/jni/gifvideo.cpp:255-331 | an escaped unit holds none of the byte patterns section 7.4.1 forbids |
| Rbsp.EscapeOnto | app/jni/gifvideo.cpp:255-331 | every unit without them is the escaping of its payload |
| NalPacket.FindNextStartCode | app/jni/gifvideo.cpp:346-356 | the bytes up to behind the first start code that has a byte behind it, or all |
| NalPacket.GetNalSize | app/jni/gifvideo.cpp:333-343 | the length field, when it is positive as a signed number and that much is there |
| NalPacket.StopBit | app/jni/gifvideo.cpp:358-380 | the bit length ends at the stop bit: a one with nothing but zeros behind it |
| NalPacket.SplitPacket | app/jni/gifvideo.cpp:432-528 | the units of a packet, in the buffer, are those that the splitting of its bytes yields |
| NalPacket.PacketBytes | app/jni/gifvideo.cpp:432-528 | two units with start codes and with length fields, given byte by byte |
| NalPacket.AnnexBBack | app/jni/gifvideo.cpp:432-528 | units written with start codes come back, all and in order |
| NalPacket.AvccBack | app/jni/gifvideo.cpp:432-528 | units written with length fields come back if and only if the last one takes four bytes with its length |
| NalPacket.ShortUnitLost | app/jni/gifvideo.cpp:446-446 | a unit that is lost |
| Triangle.TriIsWeighted | app/jni/image.cpp:188-196 | sums over ever wider boxes are the sum with triangular weights |
| Triangle.TriMoves | app/jni/image.cpp:200-204 | the sum grows by what is ahead and falls by what is behind |
| Triangle.TriBound | app/jni/image.cpp:741-765 | the sum of bytes is at most 255 times the square of the radius and one |
| FastBlur.NoCarry | app/jni/image.cpp:200-204 | a shift and a mask do to each of four lanes what division does to it alone |
| FastBlur.SmoothedPacked | app/jni/image.cpp:58-60 | a pass over packed words is a pass over each channel |
| FastBlur.RowPass | app/jni/image.cpp:187-219 | the second-difference recurrence, modulo 2^64, gives the blurred row |
| FastBlur.ColumnPass | app/jni/image.cpp:221-254 | the same for a column, written back to the picture; nothing else changes |
| FastBlur.FastBlur | app/jni/image.cpp:155-257 | every byte of the picture is the clamped triangular mean of its column of the means of the rows, rounded down twice; a picture or radius it does not work on is left as it is |
| StackBlur.RingTurns | app/jni/image.cpp:819-847 | the circular stack holds the window, and after a step the next window |
| StackBlur.Turn | app/jni/image.cpp:814-857 | the sum is the triangular sum and the in and out sums are its two halves, one step on |
| StackBlur.TableMean | app/jni/image.cpp:760-764 | every index into the division table is inside it, and gives the exact mean rounded down |
| FastBlur.ProductFits | app/jni/image.cpp:174-176 | the test on the number of pixels is that of 32-bit arithmetic for every picture of less than 8 GB |
| StackBlur.TableFits | app/jni/image.cpp:757-761 | the size of the division table fits 32 bits with a sign if and only if the radius is at most 2895 |
| StackBlur.SumsFit | app/jni/image.cpp:814-857 | up to that radius no sum of the pass leaves 32 bits, also in the middle of a step |
| StackBlur.HorizontalPass | app/jni/image.cpp:736-862 | every plane holds the clamped triangular means of the rows of its channel, for every width and, in unbounded arithmetic, every radius; `TableFits` and `SumsFit` say up to which radius 32 bits do |
| Utf8.ValidIff | app/jni/TgNetWrapper.cpp:609-653 | the grammar of section 4 of RFC 3629 describes exactly the encodings of section 3 of scalar values |
| Utf8.CheckUtf8 | app/jni/TgNetWrapper.cpp:609-653 | true if and only if the bytes are encodings of Unicode scalar values; it never reads past the zero byte behind them |

## Left out

- The `fillOutput` compressor, partial decoding, `LZ4_decompress_fast*` and pointer tables: other modes with contracts of their own.
- Dictionaries loaded or attached beforehand (`LZ4_loadDict`, `LZ4_attach_dictionary`, prepared frame dictionaries) and the search in a second memory segment, in both compressors.
- The decoder loop for x86 only (app/jni/lz4/lz4.c:1644-1772), big-endian and 32-bit targets.
- Acceleration values at which the 32-bit step counter of the match search would overflow.
- `LZ4HC_compress_hashChain` (app/jni/lz4/lz4hc.c:473-688): its match finder and its encoder are modelled, its choice between three matches is not.
- Lz4Compressor.CompressGeneric: asks for `Slack` bytes behind a limited budget; the size from which that is more than 0 is sharp, the number of bytes is not.
- FrameRoundTrip.WholeRoundTrip: in a frame whose history is not in front of its output the library's block decoder takes its other path, for a second memory segment, which is not modelled; any function that meets `GoodEnv` and `FormatDecoder` may stand for it.
- Lz4HcMatch.InsertAndGetWiderMatch: when it looks back and analyses patterns at once, only the nearest candidate is said to have no longer match, because the jumps through a pattern count what follows and not what goes before.
- Lz4HcOptimal.CompressOptimal: when 0 is answered, the parse is one that begins as the search went and ends with literals; what the search would have found behind it is not told, except for runs of equal bytes.
- Lz4HcChain.Chains.Insert: is not called for a position before one that was inserted already; the source would then move its mark back.
- FrameEncoder.EncodeFrame: takes the block compressor as a function that keeps what `GoodCompressor` says; for a source given in one piece `FrameRoundTrip.CompressFrame` uses the library's compressor instead. The streaming compressor with its history in another buffer is not modelled.
- FrameEncoder.Cctx.Update: returns its output as a sequence; that a call with 2^32 blocks or more writes past the room it asked for shows only in its length.
- FrameEncoder.CompressFrame: needs a context with buffers; `LZ4F_compressFrame` (app/jni/lz4/lz4frame.c:428-470) sets a buffer size without a buffer and relies on never using it.
- FrameDecoder.DecodeFrame: the two error codes for a block that does not decode are one; checksum states are the bytes fed to them; `LZ4F_getFrameInfo` is not modelled, nor are two buffers that happen to be adjacent in memory. A run writes to new buffers or behind its last output; calls that write over earlier output are covered one by one in `Decompress`.
- XxHash64.State.Digest: data of 2^64 bytes or more has no one-shot hash to be compared with.
- Rbsp.ExtractRbsp: the growth of the list of skipped positions, and running out of memory for it, are not modelled.
- NalPacket.SplitPacket: the fields of the unit header are not kept, only whether the forbidden bit is clear.
- FastBlur.FastBlur: the product of width and height is not truncated to 32 bits; by `ProductFits` that makes no difference for a picture of less than 8 GB.
- StackBlur.HorizontalPass: sums are unbounded; from radius 2896 on the size of the table overflows in the source.
- The vertical pass of `stackBlurBitmap`: it begins with `MAX(0, yp) + x`, and `MAX` in app/jni/c_utils.h:20-25 has no outer parentheses.
- `fastBlurMore` (app/jni/image.cpp:66-153): it shifts by 6 whatever the radius is, so it is the mean only for radius 7; and the variants for 16-bit pixels.
- Canny edges, gradients, rendering and OCR (floating point), JNI, sockets, SQLite, file access and calls into FFmpeg, Opus, FLAC, WebP, OpenSSL and rlottie.
