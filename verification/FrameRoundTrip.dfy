/** The frame layer on top of the block format: the content of a block by the format and what the
    library's decoder makes of it are block decoders that frames can be built on, and what the frame
    encoder writes, the frame decoder gives back. */
module FrameRoundTrip {
  import opened Lz4Format
  import opened Lz4Parse
  import opened Lz4Compressor
  import Lz4Decoder
  import opened Lz4Stream
  import opened FrameFormat
  import opened FrameBytes
  import opened FrameWriter
  import FrameEncoder
  import FrameDecoder

  type BlockDecoding = (seq<byte>, seq<byte>, nat) -> Option<seq<byte>>

  /** A block decoder that decodes every block the format allows, whatever else it does. */
  ghost predicate FormatDecoder(dec: BlockDecoding) {
    forall h, b, cap, x :: Encodes(b, h, x) && |x| <= cap && cap > 0 ==> dec(h, b, cap) == Some(x)
  }

  /** The content of a block that the block format allows, if there is room for it. */
  function BlockDecoder(history: seq<byte>, block: seq<byte>, cap: nat): Option<seq<byte>> {
    match ContentOf(block, history)
    case None => None
    case Some(x) => if |x| <= cap then Some(x) else None
  }

  lemma {:induction false} DecodeLessHistory(src: seq<byte>, i: nat, out: seq<byte>, more: seq<byte>)
    requires Decode(src, i, more + out).Some? && |out| >= DISTANCE_MAX
    ensures Decode(src, i, out).Some?
    decreases |src| - i
  {
    var it := ItemAt(src, i);
    if it.Match? {
      ApplyMoreHistory(src, it, out, more);
      DecodeLessHistory(src, it.next, Apply(src, it, out), more);
    }
  }

  /** Only the last 64 KB of the history matter: no match reaches further back. */
  lemma HistoryEnd(block: seq<byte>, h: seq<byte>)
    ensures ContentOf(block, h) == ContentOf(block, Tail64(h))
  {
    hide Decode, Restricted;
    if |h| > KB64 {
      var front, t := h[..|h| - KB64], Tail64(h);
      assert h == front + t;
      if Decode(block, 0, t).Some? {
        DecodeMoreHistory(block, 0, t, front);
        var d := Decode(block, 0, t).value;
        assert (front + d)[|h|..] == d[|t|..];
      } else if Decode(block, 0, h).Some? {
        DecodeLessHistory(block, 0, t, front);
      }
    }
  }

  /** The same for what the library's block decoder makes of a block, which also stays in its room. */
  lemma SafeHistoryEnd(h: seq<byte>, block: seq<byte>, cap: nat)
    ensures Lz4Decoder.SafeContent(h, block, cap) == Lz4Decoder.SafeContent(Tail64(h), block, cap)
    ensures Lz4Decoder.SafeContent(h, block, cap).Some? ==> |Lz4Decoder.SafeContent(h, block, cap).value| <= cap
  {
    hide Lz4Decoder.SafeDecode;
    var d := Lz4Decoder.SafeDecode(block, 0, h, 0, cap);
    if d.Some? { SafeFits(block, 0, h, 0, cap); }
    if |h| > KB64 {
      var front, t := h[..|h| - KB64], Tail64(h);
      assert h == front + t;
      SafeMoreHistory(block, 0, t, front, 0, cap);
      var d' := Lz4Decoder.SafeDecode(block, 0, t, 0, cap);
      if d'.Some? {
        SafeFits(block, 0, t, 0, cap);
        assert (front + d'.value)[|h|..] == d'.value[|t|..];
      }
    }
  }

  lemma SafeDecoderGood(hash: seq<byte> -> nat)
    ensures GoodEnv(Env(Lz4Decoder.SafeContent, hash, [])) && FormatDecoder(Lz4Decoder.SafeContent)
  {
    hide Lz4Decoder.SafeContent, Tail64, Encodes;
    forall h: seq<byte>, b: seq<byte>, cap: nat
      ensures Lz4Decoder.SafeContent(h, b, cap) == Lz4Decoder.SafeContent(Tail64(h), b, cap)
      ensures Lz4Decoder.SafeContent(h, b, cap).Some? ==> |Lz4Decoder.SafeContent(h, b, cap).value| <= cap
    {
      SafeHistoryEnd(h, b, cap);
    }
    forall h: seq<byte>, b: seq<byte>, cap: nat, x: seq<byte> | Encodes(b, h, x) && |x| <= cap && cap > 0
      ensures Lz4Decoder.SafeContent(h, b, cap) == Some(x)
    {
      Lz4Decoder.SafeContentOfFormat(b, h, x, cap);
    }
  }

  lemma BlockDecoderGood(hash: seq<byte> -> nat)
    ensures GoodEnv(Env(BlockDecoder, hash, [])) && FormatDecoder(BlockDecoder)
  {
    hide ContentOf, Tail64;
    forall h: seq<byte>, b: seq<byte>, cap: nat
      ensures BlockDecoder(h, b, cap) == BlockDecoder(Tail64(h), b, cap)
    {
      HistoryEnd(b, h);
    }
  }

  /** Any compressor that writes blocks of the format is one that frames can be built on. */
  lemma FormatCompressorGood(compress: (seq<byte>, seq<byte>, nat) -> Option<seq<byte>>, dec: BlockDecoding)
    requires FormatDecoder(dec)
    requires forall h, b, cap :: compress(h, b, cap).Some? ==>
               0 < |compress(h, b, cap).value| <= cap && Encodes(compress(h, b, cap).value, h, b)
    ensures FrameEncoder.GoodCompressor(compress, dec)
  {
    hide ContentOf;
    forall h: seq<byte>, b: seq<byte>, cap: nat, g: seq<byte>, max: nat
      | compress(h, b, cap).Some? && |b| <= max && max > 0
      ensures dec(g + h, compress(h, b, cap).value, max) == Some(b)
    {
      EncodesMoreHistory(compress(h, b, cap).value, h, b, g);
    }
  }

  /** What is encoded as a frame, from any pieces and with any flushes, is decoded to the same bytes,
      by any calls: they never fail, they give back what was encoded from its beginning on, they
      finish only with all of it, and do finish once they have all the frame and room left.  On a
      context that still expects bytes of an earlier frame, a frame that does not give its size is
      decoded as far, but never finishes. */
  method RoundTrip(c: FrameEncoder.Cctx, preferences: FrameEncoder.Prefs, src: array<byte>,
                   pieces: seq<FrameEncoder.Piece>,
                   d: FrameDecoder.Dctx, plan: seq<FrameDecoder.Call>)
    returns (frame: seq<byte>, t: FrameDecoder.Turn, out: seq<byte>, used: nat, starved: bool)
    requires c.Valid() && preferences.info.blockSizeID in {0, 4, 5, 6, 7} && src != c.tmpBuff
    requires preferences.info.dictID < U32
    requires preferences.info.contentSize in {0, FrameEncoder.Fed(pieces, |pieces|, src.Length)}
    requires preferences.info.contentSize < U64
    requires d.Valid() && d.dStage.GetFrameHeader? && d.dict == null && d.dec == c.dec && d.hash == c.hash
    requires {c, c.tmpBuff} !! d.Internal()
    modifies c, c.tmpBuff, d, d.tmpIn, d.tmpOutBuffer, d.header
    ensures var x := old(src[..FrameEncoder.Fed(pieces, |pieces|, src.Length)]);
            && out <= x
            && if old(d.frameRemainingSize) == 0 || preferences.info.contentSize > 0 then
                 && !t.Failed? && d.Valid()
                 && (t.Finished? ==> out == x && used == |frame|)
                 && (starved && used == |frame| ==> t.Finished?)
               else
                 && !t.Finished? && d.Sound()
                 && (t.Failed? ==> t.error == FrameSizeWrong)
                 && (starved && used == |frame| ==> t.Failed?)
  {
    hide Run, Frame, FrameFrom, FrameEncoder.GoodCompressor, GoodEnv, Tail64;
    var r := FrameEncoder.EncodeFrame(c, preferences, src, pieces);
    frame := r.value;
    assert frame + [] == frame;
    assert FrameFrom(c.Environment(), d.frameRemainingSize, frame + []).end in {Done([], 0), Refused(FrameSizeWrong)};
    var none := new byte[0];
    t, used, out, starved := FrameDecoder.DecodeFrame(d, frame, plan, none, 0, 0);
  }

  // ------------------------------------------------ with the block compressor itself

  /** What becomes of a block whose parse by the compressor is p: the block of the parse if that is shorter,
      the bytes as they are otherwise. */
  ghost predicate Stored(j: Job, p: Parsed, block: seq<byte>, info: Info, hash: seq<byte> -> nat, out: seq<byte>)
    requires j.Valid() && p.anchor <= j.Iend() && FrameEncoder.GoodHash(hash)
    requires 0 < |block| < BLOCKUNCOMPRESSED_FLAG
  {
    if Size(j, p) < |block| then exists c | IsBlock(j, p, c) && |c| < |block| :: out == BlockBytes(c, false, info, hash)
    else out == BlockBytes(block, true, info, hash)
  }

  lemma StoredAnswer(j: Job, p: Parsed, block: seq<byte>, info: Info, hash: seq<byte> -> nat, r: nat,
                     c: seq<byte>)
    requires j.Valid() && p.anchor <= j.Iend() && FrameEncoder.GoodHash(hash)
    requires 0 < |block| < BLOCKUNCOMPRESSED_FLAG && r == |c| && Answer(j, p, Limited(|block| - 1), r, c)
    ensures Stored(j, p, block, info, hash,
                   if r == 0 then BlockBytes(block, true, info, hash) else BlockBytes(c, false, info, hash))
  {
    hide BlockBytes, SequencesSize, IsBlock;
  }

  /** LZ4F_makeBlock with LZ4F_compressBlock: a block of its own, by the block compressor of the
      library, into a buffer of one byte less than the block, which is never overrun. */
  method IndependentBlock(lz4: Stream, block: seq<byte>, info: Info, hash: seq<byte> -> nat, acceleration: int,
                          ghost sent: seq<byte>, ghost dec: BlockDecoding)
    returns (out: seq<byte>)
    requires lz4.Valid() && lz4.hashTable.Length > 0 && FrameEncoder.GoodHash(hash)
    requires FormatDecoder(dec) && info.Valid() && !info.linked && 0 < |block| <= info.MaxBlockSize()
    modifies lz4, lz4.hashTable
    ensures lz4.Valid()
    ensures |out| <= BH_SIZE + |block| + info.CrcSize()
    ensures Decodes(Env(dec, hash, []), info, sent, out, block)
    ensures Stored(old(lz4.ResetJob(block)), old(lz4.ResetParse(block, acceleration)), block, info, hash, out)
    ensures IsRun(block) ==> |out| == BH_SIZE + RunSize(|block|) + info.CrcSize()
  {
    hide Decodes, Stream.Valid, Run, FormatDecoder, Encodes, Answer, Stored, BlockBytes;
    var n := |block|;
    var dst := new byte[n - 1];
    var cSize := lz4.CompressFastReset(block, dst, n - 1, acceleration);
    StoredAnswer(old(lz4.ResetJob(block)), old(lz4.ResetParse(block, acceleration)), block, info, hash, cSize,
                 dst[..cSize]);
    if cSize == 0 {
      RawBlock(Env(dec, hash, []), info, sent, block);
      out := BlockBytes(block, true, info, hash);
    } else {
      var c := dst[..cSize];
      OwnBlock(c, block, info.MaxBlockSize(), dec);
      CompressedBlock(Env(dec, hash, []), info, sent, c, block);
      out := BlockBytes(c, false, info, hash);
    }
  }

  lemma OwnBlock(c: seq<byte>, block: seq<byte>, cap: nat, dec: BlockDecoding)
    requires FormatDecoder(dec) && Encodes(c, [], block) && |block| <= cap && cap > 0
    ensures dec([], c, cap) == Some(block)
  {
  }

  /** LZ4F_makeBlock with LZ4F_compressBlock_continue: the n bytes that follow those of src already
      sent, by the block compressor with the history that it finds in front of them. */
  method LinkedBlock(lz4: Stream, src: seq<byte>, pos: nat, n: nat, info: Info, hash: seq<byte> -> nat,
                     acceleration: int, ghost dec: BlockDecoding)
    returns (out: seq<byte>)
    requires FormatDecoder(dec) && lz4.Linked(pos) && lz4.hashTable.Length > 0 && FrameEncoder.GoodHash(hash)
    requires lz4.dictionary != None ==> lz4.dictionary.value <= pos
    requires info.Valid() && info.linked && 0 < n <= info.MaxBlockSize() && pos + n <= |src|
    modifies lz4, lz4.hashTable
    ensures lz4.Linked(pos + n) && (lz4.dictionary != None ==> lz4.dictionary.value <= pos + n)
    ensures |out| <= BH_SIZE + n + info.CrcSize()
    ensures Decodes(Env(dec, hash, []), info, src[..pos], out, src[pos..pos + n])
    ensures Stored(old(lz4.ContinueJob(src, pos, n)), old(lz4.ContinueParse(src, pos, n, acceleration)),
                   src[pos..pos + n], info, hash, out)
    ensures old(lz4.dictionary) == None && IsRun(src[pos..pos + n]) ==>
              |out| == BH_SIZE + RunSize(n) + info.CrcSize()
  {
    hide Decodes, Stream.Valid, Run, FormatDecoder, Encodes, Answer, Stored, BlockBytes, Stream.ContinueParse,
      Stream.ContinueJob;
    var block := src[pos..pos + n];
    var dst := new byte[n - 1];
    var cSize := lz4.CompressFastContinue(src, pos, n, dst, n - 1, acceleration);
    StoredAnswer(old(lz4.ContinueJob(src, pos, n)), old(lz4.ContinueParse(src, pos, n, acceleration)), block, info,
                 hash, cSize, dst[..cSize]);
    if cSize == 0 {
      RawBlock(Env(dec, hash, []), info, src[..pos], block);
      out := BlockBytes(block, true, info, hash);
    } else {
      var c := dst[..cSize];
      ghost var low := lz4.dictionary.value;
      BlockBehind(c, src[..low], src[low..pos], block, info.MaxBlockSize(), dec);
      assert [] + src[..pos] == src[..low] + src[low..pos];
      CompressedBlock(Env(dec, hash, []), info, src[..pos], c, block);
      out := BlockBytes(c, false, info, hash);
    }
  }

  lemma BlockBehind(c: seq<byte>, more: seq<byte>, history: seq<byte>, block: seq<byte>, cap: nat,
                    dec: BlockDecoding)
    requires FormatDecoder(dec) && Encodes(c, history, block) && |block| <= cap && cap > 0
    ensures dec(more + history, c, cap) == Some(block)
  {
    EncodesMoreHistory(c, history, block, more);
  }

  /** LZ4F_compressFrame at a fast level, with the library's block compressor on a new context.  The
      frame is decoded to the source, whatever follows it, and it fits the bound if the number of
      blocks fits in 32 bits. */
  method CompressFrame(src: seq<byte>, preferences: FrameEncoder.Prefs, hash: seq<byte> -> nat, acceleration: int,
                       size: nat, hash16: Hash, hash32: Hash, ghost dec: BlockDecoding)
    returns (frame: seq<byte>)
    requires FormatDecoder(dec) && size > 0 && forall s: seq<byte> :: hash16(s) < size && hash32(s) < size
    requires FrameEncoder.GoodHash(hash) && |src| < U64
    requires preferences.info.blockSizeID in {0, 4, 5, 6, 7} && preferences.info.dictID < U32
    ensures FrameEncoder.Countable(|src|, FrameEncoder.FramePrefs(preferences, |src|)) ==>
              |frame| <= FrameEncoder.CompressFrameBound(|src|, FrameEncoder.FramePrefs(preferences, |src|))
    ensures IsFrame(Env(dec, hash, []), frame, src, preferences.info.contentSize > 0 && |src| > 0)
    ensures Announces(frame, hash, FrameEncoder.AskedWhole(preferences.info, |src|))
    ensures IsRun(src) && |src| <= KB64 ==>
              |frame| <= MAX_FH_SIZE + 2 * (BH_SIZE + BF_SIZE) + RunSize(|src|)
  {
    hide IsRun, RunSize, Decodes, Run, HeaderBytes, EndBytes, IsFrame, Announces, FormatDecoder,
      FrameEncoder.BlockSpace,
      FrameEncoder.CompressBound,
      FrameEncoder.Countable;
    var prefs := FrameEncoder.FramePrefs(preferences, |src|);
    var info := FrameEncoder.Effective(prefs).info;
    var lz4 := new Stream(size, hash16, hash32);
    var blocks := SourceBlocks(lz4, src, info, hash, acceleration, dec);
    frame := HeaderBytes(info, hash) + blocks + EndBytes(src, info, hash);
    if FrameEncoder.Countable(|src|, prefs) { FrameEncoder.FrameRoom(|src|, prefs); }
    FrameSizes(info, src, hash);
    WholeFrame(Env(dec, hash, []), info, blocks, src);
    assert frame == HeaderBytes(info, hash) + (blocks + EndBytes(src, info, hash));
    HeaderAnnounces(info, hash, blocks + EndBytes(src, info, hash));
  }

  /** Between two blocks. */
  ghost predicate Ready(lz4: Stream, linked: bool, pos: nat)
    reads lz4, lz4.hashTable
  {
    && lz4.hashTable.Length > 0
    && if linked then lz4.Linked(pos) && (lz4.dictionary != None ==> lz4.dictionary.value <= pos) else lz4.Valid()
  }

  /** The next block of a source, linked or not. */
  method NextBlock(lz4: Stream, src: seq<byte>, pos: nat, n: nat, info: Info, hash: seq<byte> -> nat,
                   acceleration: int, ghost dec: BlockDecoding)
    returns (out: seq<byte>)
    requires FormatDecoder(dec) && Ready(lz4, info.linked, pos) && FrameEncoder.GoodHash(hash)
    requires info.Valid() && 0 < n <= info.MaxBlockSize() && pos + n <= |src|
    modifies lz4, lz4.hashTable
    ensures Ready(lz4, info.linked, pos + n)
    ensures |out| <= BH_SIZE + n + info.CrcSize()
    ensures Decodes(Env(dec, hash, []), info, src[..pos], out, src[pos..pos + n])
    ensures (info.linked ==> old(lz4.dictionary) == None) && IsRun(src[pos..pos + n]) ==>
              |out| == BH_SIZE + RunSize(n) + info.CrcSize()
  {
    hide Decodes, Stream.Valid, Stream.Linked, Run, FormatDecoder, Encodes, Stored, IsRun, RunSize;
    if info.linked {
      out := LinkedBlock(lz4, src, pos, n, info, hash, acceleration, dec);
    } else {
      out := IndependentBlock(lz4, src[pos..pos + n], info, hash, acceleration, src[..pos], dec);
    }
  }

  /** The blocks of a whole source. */
  method SourceBlocks(lz4: Stream, src: seq<byte>, info: Info, hash: seq<byte> -> nat, acceleration: int,
                      ghost dec: BlockDecoding)
    returns (blocks: seq<byte>)
    requires FormatDecoder(dec) && Ready(lz4, info.linked, 0) && FrameEncoder.GoodHash(hash)
    requires info.Valid() && (info.linked ==> lz4.dictionary == None)
    modifies lz4, lz4.hashTable
    ensures |blocks| <= FrameEncoder.BlockSpace(|src|, info.MaxBlockSize(), BH_SIZE + info.CrcSize(), true)
    ensures Decodes(Env(dec, hash, []), info, [], blocks, src)
    ensures IsRun(src) && |src| <= info.MaxBlockSize() ==>
              |blocks| == BH_SIZE + RunSize(|src|) + info.CrcSize()
  {
    hide Decodes, Ready, Run, FormatDecoder, FrameEncoder.BlockSpace, RunSize;
    ghost var e, over, size := Env(dec, hash, []), BH_SIZE + info.CrcSize(), info.MaxBlockSize();
    var pos := 0;
    blocks := [];
    NoBlocks(e, info, []);
    while pos < |src|
      invariant pos <= |src| && Decodes(e, info, [], blocks, src[..pos]) && Ready(lz4, info.linked, pos)
      invariant pos == 0 ==> blocks == [] && (info.linked ==> lz4.dictionary == None)
      invariant 0 < pos && |src| <= size ==> pos == |src| && (IsRun(src) ==> |blocks| == over + RunSize(|src|))
      invariant |blocks| + FrameEncoder.BlockSpace(|src| - pos, size, over, true)
             <= FrameEncoder.BlockSpace(|src|, size, over, true)
    {
      var n := Min(info.MaxBlockSize(), |src| - pos);
      var b := NextBlock(lz4, src, pos, n, info, hash, acceleration, dec);
      assert [] + src[..pos] == src[..pos] && src[..pos] + src[pos..pos + n] == src[..pos + n];
      assert |src| <= size ==> src[pos..pos + n] == src;
      MoreBlocks(e, info, [], blocks, src[..pos], b, src[pos..pos + n]);
      SpaceOfBlock(|src| - pos, size, over);
      blocks, pos := blocks + b, pos + n;
    }
    assert src[..pos] == src;
  }

  lemma SpaceOfBlock(left: nat, size: pos, over: nat)
    requires left > 0
    ensures var n := Min(size, left);
            FrameEncoder.BlockSpace(left, size, over, true)
            == over + n + FrameEncoder.BlockSpace(left - n, size, over, true)
  {
    hide FrameEncoder.BlockSpace;
    if left >= size {
      FrameEncoder.FullBlock(left, size, over, true);
    } else {
      FrameEncoder.LastBlock(left, size, over);
      NoSpace(size, over);
    }
  }

  lemma NoSpace(size: pos, over: nat)
    ensures FrameEncoder.BlockSpace(0, size, over, true) == 0
  {
    assert FrameEncoder.BlockCount(0, size, true) == 0;
  }

  lemma FrameSizes(info: Info, src: seq<byte>, hash: seq<byte> -> nat)
    requires info.Valid() && FrameEncoder.GoodHash(hash)
    ensures |HeaderBytes(info, hash)| <= MAX_FH_SIZE && hash(src) < U32
    ensures |EndBytes(src, info, hash)| == BH_SIZE + (if info.contentChecksum then BF_SIZE else 0)
  {
  }

  /** Compressed with the library's block compressor, and decoded by any calls: the source, on a context
      that expects nothing, and on any when the size was asked for. */
  method WholeRoundTrip(src: seq<byte>, preferences: FrameEncoder.Prefs, acceleration: int,
                        size: nat, hash16: Hash, hash32: Hash, d: FrameDecoder.Dctx, plan: seq<FrameDecoder.Call>)
    returns (frame: seq<byte>, t: FrameDecoder.Turn, out: seq<byte>, used: nat, starved: bool)
    requires size > 0 && forall s: seq<byte> :: hash16(s) < size && hash32(s) < size
    requires FrameEncoder.GoodHash(d.hash) && |src| < U64
    requires preferences.info.blockSizeID in {0, 4, 5, 6, 7} && preferences.info.dictID < U32
    requires d.Valid() && d.dStage.GetFrameHeader? && d.dict == null && FormatDecoder(d.dec)
    requires d.frameRemainingSize == 0 || (preferences.info.contentSize > 0 && |src| > 0)
    modifies d, d.tmpIn, d.tmpOutBuffer, d.header
    ensures !t.Failed? && out <= src && d.Valid()
    ensures t.Finished? ==> out == src && used == |frame|
    ensures starved && used == |frame| ==> t.Finished?
  {
    hide Run, Frame, FrameFrom, GoodEnv, FormatDecoder, Tail64, FrameEncoder.Countable;
    frame := CompressFrame(src, preferences, d.hash, acceleration, size, hash16, hash32, d.dec);
    assert frame + [] == frame;
    assert FrameFrom(d.Environment(), d.frameRemainingSize, frame + []).end == Done([], 0);
    var none := new byte[0];
    t, used, out, starved := FrameDecoder.DecodeFrame(d, frame, plan, none, 0, 0);
  }
}
