/** The bytes a frame encoder writes, and what they mean to a decoder: the header, a block,
    the end mark with the content checksum. */
module FrameWriter {
  import opened Lz4Format
  import opened FrameFormat
  import opened FrameReset

  // ------------------------------------------------------------ little endian

  function LE32Bytes(v: nat): (s: seq<byte>)
    requires v < U32
    ensures |s| == 4
  {
    [v % 0x100, v / 0x100 % 0x100, v / 0x1_0000 % 0x100, v / 0x100_0000]
  }

  function LE64Bytes(v: nat): (s: seq<byte>)
    requires v < U64
    ensures |s| == 8
  {
    LE32Bytes(v % U32) + LE32Bytes(v / U32)
  }

  lemma ReadsBack(s: seq<byte>, i: nat, v: nat)
    requires i + 4 <= |s| && v < U32 && s[i..i + 4] == LE32Bytes(v)
    ensures LE32(s, i) == v
  {
    var b := LE32Bytes(v);
    assert s[i] == b[0] && s[i + 1] == b[1] && s[i + 2] == b[2] && s[i + 3] == b[3] by {
      assert s[i] == s[i..i + 4][0] && s[i + 1] == s[i..i + 4][1];
      assert s[i + 2] == s[i..i + 4][2] && s[i + 3] == s[i..i + 4][3];
    }
  }

  lemma ReadsBack64(s: seq<byte>, i: nat, v: nat)
    requires i + 8 <= |s| && v < U64 && s[i..i + 8] == LE64Bytes(v)
    ensures LE64(s, i) == v
  {
    assert s[i..i + 4] == s[i..i + 8][..4] == LE32Bytes(v % U32);
    assert s[i + 4..i + 8] == s[i..i + 8][4..] == LE32Bytes(v / U32);
    ReadsBack(s, i, v % U32);
    ReadsBack(s, i + 4, v / U32);
  }

  // ------------------------------------------------------------------- header

  function Bit(b: bool, weight: nat): nat { if b then weight else 0 }

  function Flg(info: Info): (flg: nat)
    ensures flg < 0x100
  {
    64 + Bit(!info.linked, 32) + Bit(info.blockChecksum, 16) + Bit(info.contentSize > 0, 8)
    + Bit(info.contentChecksum, 4) + Bit(info.dictID > 0, 1)
  }

  /** The descriptor: what the header checksum covers. */
  function Descriptor(info: Info): (d: seq<byte>)
    requires info.Valid()
    ensures |d| == FlgSize(Flg(info)) - 5
  {
    [Flg(info), info.blockSizeID * 16]
    + (if info.contentSize > 0 then LE64Bytes(info.contentSize) else [])
    + (if info.dictID > 0 then LE32Bytes(info.dictID) else [])
  }

  function HeaderBytes(info: Info, xxh: seq<byte> -> nat): (h: seq<byte>)
    requires info.Valid()
    ensures MIN_FH_SIZE <= |h| <= MAX_FH_SIZE
  {
    var d := Descriptor(info);
    LE32Bytes(MAGICNUMBER) + d + [xxh(d) / 256 % 256]
  }

  lemma FlgReads(info: Info)
    ensures var flg := Flg(info);
            && flg / 2 % 2 == 0 && flg / 64 == 1
            && (flg / 32 % 2 == 0 <==> info.linked) && (flg / 16 % 2 == 1 <==> info.blockChecksum)
            && (flg / 8 % 2 == 1 <==> info.contentSize > 0) && (flg / 4 % 2 == 1 <==> info.contentChecksum)
            && (flg % 2 == 1 <==> info.dictID > 0)
  {
  }

  /** Where the fields are in a header. */
  lemma HeaderFields(info: Info, xxh: seq<byte> -> nat, s: seq<byte>)
    requires info.Valid() && HeaderBytes(info, xxh) <= s
    ensures var size := |HeaderBytes(info, xxh)|;
            && size == FlgSize(Flg(info)) <= |s|
            && s[0..4] == LE32Bytes(MAGICNUMBER) && s[4..size - 1] == Descriptor(info)
            && s[4] == Flg(info) && s[5] == info.blockSizeID * 16
            && s[size - 1] == xxh(Descriptor(info)) / 256 % 256
            && (info.contentSize > 0 ==> s[6..14] == LE64Bytes(info.contentSize))
            && (info.dictID > 0 ==> s[size - 5..size - 1] == LE32Bytes(info.dictID))
  {
    hide LE32Bytes, LE64Bytes, Flg;
    var h, d := HeaderBytes(info, xxh), Descriptor(info);
    var size := |h|;
    assert s[..size] == h;
    assert s[4..size - 1] == h[4..size - 1] == d;
    assert s[0..4] == h[..4];
    assert s[4] == d[0] && s[5] == d[1] && s[size - 1] == h[size - 1];
    if info.contentSize > 0 { assert s[6..14] == d[2..10]; }
    if info.dictID > 0 { assert s[size - 5..size - 1] == d[|d| - 4..]; }
  }

  /** Decoding a header gives back what it was written from, whatever follows. */
  lemma HeaderRoundTrip(info: Info, xxh: seq<byte> -> nat, rest: seq<byte>)
    requires info.Valid()
    ensures ParseHeader(HeaderBytes(info, xxh) + rest, xxh)
         == Header(info, info.contentSize > 0, |HeaderBytes(info, xxh)|)
  {
    hide LE32, LE64, LE32Bytes, LE64Bytes, Flg, Descriptor, HeaderBytes;
    var s, size := HeaderBytes(info, xxh) + rest, |HeaderBytes(info, xxh)|;
    FlgReads(info);
    HeaderFields(info, xxh, s);
    ReadsBack(s, 0, MAGICNUMBER);
    if info.contentSize > 0 { ReadsBack64(s, 6, info.contentSize); }
    if info.dictID > 0 { ReadsBack(s, size - 5, info.dictID); }
  }

  /** The bytes f begin with a header that says info. */
  predicate Announces(f: seq<byte>, xxh: seq<byte> -> nat, info: Info) {
    var h := ParseHeader(f, xxh);
    h.Header? && h.info == info && (h.sized <==> info.contentSize > 0)
  }

  lemma HeaderAnnounces(info: Info, xxh: seq<byte> -> nat, rest: seq<byte>)
    requires info.Valid()
    ensures Announces(HeaderBytes(info, xxh) + rest, xxh, info)
  {
    hide ParseHeader, HeaderBytes;
    HeaderRoundTrip(info, xxh, rest);
  }

  // ------------------------------------------------------------------- blocks

  function Crc(data: seq<byte>, info: Info, xxh: seq<byte> -> nat): (s: seq<byte>)
    requires xxh(data) < U32
    ensures |s| == info.CrcSize()
  {
    if info.blockChecksum then LE32Bytes(xxh(data)) else []
  }

  /** A block as it is written: its size and kind, its data, its checksum. */
  function BlockBytes(data: seq<byte>, raw: bool, info: Info, xxh: seq<byte> -> nat): (s: seq<byte>)
    requires |data| < BLOCKUNCOMPRESSED_FLAG && xxh(data) < U32
    ensures |s| == BH_SIZE + |data| + info.CrcSize()
  {
    LE32Bytes(|data| + Bit(raw, BLOCKUNCOMPRESSED_FLAG)) + data + Crc(data, info, xxh)
  }

  /** The state of the decoder once sent is decoded. */
  function At(info: Info, sent: seq<byte>): State {
    State(info, if info.contentSize != 0 then (info.contentSize - |sent|) % U64 else 0, sent)
  }

  lemma AtMore(info: Info, sent: seq<byte>, x: seq<byte>)
    ensures Produce(At(info, sent), x) == At(info, sent + x)
  {
    SubMod(info.contentSize, |sent|, |x|);
  }

  /** To a decoder that has decoded sent, the bytes b are blocks with the content x. */
  ghost predicate Decodes(e: Env, info: Info, sent: seq<byte>, b: seq<byte>, x: seq<byte>) {
    forall rest :: Run(e, At(info, sent), AtBlock, b + rest)
                   == Prepend(x, Run(e, At(info, sent + x), AtBlock, rest))
  }

  lemma NoBlocks(e: Env, info: Info, sent: seq<byte>)
    ensures Decodes(e, info, sent, [], [])
  {
    hide Run;
    forall rest: seq<byte>
      ensures Run(e, At(info, sent), AtBlock, [] + rest) == Prepend([], Run(e, At(info, sent + []), AtBlock, rest))
    {
      assert [] + rest == rest && sent + [] == sent;
      PrependNothing(Run(e, At(info, sent), AtBlock, rest));
    }
  }

  lemma MoreBlocks(e: Env, info: Info, sent: seq<byte>, b: seq<byte>, x: seq<byte>, b': seq<byte>, x': seq<byte>)
    requires Decodes(e, info, sent, b, x) && Decodes(e, info, sent + x, b', x')
    ensures Decodes(e, info, sent, b + b', x + x')
  {
    hide Run;
    forall rest: seq<byte>
      ensures Run(e, At(info, sent), AtBlock, (b + b') + rest)
              == Prepend(x + x', Run(e, At(info, sent + (x + x')), AtBlock, rest))
    {
      assert (b + b') + rest == b + (b' + rest);
      assert (sent + x) + x' == sent + (x + x');
      PrependTwice(x, x', Run(e, At(info, sent + (x + x')), AtBlock, rest));
    }
  }

  /** A compressed block is decoded to what it was compressed from. */
  lemma CompressedBlock(e: Env, info: Info, sent: seq<byte>, c: seq<byte>, x: seq<byte>)
    requires info.Valid() && 0 < |c| <= info.MaxBlockSize() && e.xxh(c) < U32
    requires e.dec(if info.linked then e.dict + sent else e.dict, c, info.MaxBlockSize()) == Some(x)
    ensures Decodes(e, info, sent, BlockBytes(c, false, info, e.xxh), x)
  {
    hide Run;
    var st, b, crc := At(info, sent), BlockBytes(c, false, info, e.xxh), Crc(c, info, e.xxh);
    forall rest: seq<byte>
      ensures Run(e, st, AtBlock, b + rest) == Prepend(x, Run(e, At(info, sent + x), AtBlock, rest))
    {
      var word := LE32Bytes(|c|);
      ReadsBack(word, 0, |c|);
      BlockOutcome(e, st, word, c + crc + rest);
      assert b + rest == word + (c + crc + rest);
      assert (c + crc)[..|c|] == c;
      if info.blockChecksum {
        assert (c + crc)[|c|..|c| + 4] == crc;
        ReadsBack(c + crc, |c|, e.xxh(c));
      }
      CBlockOutcome(e, st, |c|, c + crc, rest);
      AtMore(info, sent, x);
    }
  }

  /** A block that did not get smaller is written as it is. */
  lemma RawBlock(e: Env, info: Info, sent: seq<byte>, x: seq<byte>)
    requires info.Valid() && 0 < |x| <= info.MaxBlockSize() && e.xxh(x) < U32
    ensures Decodes(e, info, sent, BlockBytes(x, true, info, e.xxh), x)
  {
    hide Run;
    var st, b, crc := At(info, sent), BlockBytes(x, true, info, e.xxh), Crc(x, info, e.xxh);
    forall rest: seq<byte>
      ensures Run(e, st, AtBlock, b + rest) == Prepend(x, Run(e, At(info, sent + x), AtBlock, rest))
    {
      var v := |x| + BLOCKUNCOMPRESSED_FLAG;
      var word := LE32Bytes(v);
      ReadsBack(word, 0, v);
      BlockOutcome(e, st, word, x + crc + rest);
      assert b + rest == word + (x + crc + rest);
      assert x + crc + rest == x + (crc + rest);
      RawStep(e, st, |x|, [], x + (crc + rest), |x|);
      assert (x + (crc + rest))[..|x|] == x && (x + (crc + rest))[|x|..] == crc + rest;
      AtMore(info, sent, x);
      assert [] + x == x;
      if info.blockChecksum {
        ReadsBack(crc, 0, e.xxh(x));
        RawChecksumOutcome(e, At(info, sent + x), x, crc, rest);
      } else {
        assert crc + rest == rest;
      }
    }
  }

  /** The end mark and, if there is one, the content checksum. */
  function EndBytes(content: seq<byte>, info: Info, xxh: seq<byte> -> nat): seq<byte>
    requires xxh(content) < U32
  {
    LE32Bytes(0) + (if info.contentChecksum then LE32Bytes(xxh(content)) else [])
  }

  /** A frame with the content sent ends if, and only if, its size is the one announced,
      modulo 2^64. */
  lemma FrameEnds(e: Env, info: Info, sent: seq<byte>, rest: seq<byte>)
    requires e.xxh(sent) < U32
    ensures Run(e, At(info, sent), AtBlock, EndBytes(sent, info, e.xxh) + rest) ==
            if At(info, sent).rem == 0 then Outcome([], Done(rest, 0)) else Outcome([], Refused(FrameSizeWrong))
  {
    var st, mark := At(info, sent), LE32Bytes(0);
    var crc := if info.contentChecksum then LE32Bytes(e.xxh(sent)) else [];
    ReadsBack(mark, 0, 0);
    BlockOutcome(e, st, mark, crc + rest);
    assert EndBytes(sent, info, e.xxh) + rest == mark + (crc + rest);
    if st.rem == 0 {
      if info.contentChecksum {
        ReadsBack(crc, 0, e.xxh(sent));
        SuffixOutcome(e, st, crc, rest);
      } else {
        assert crc + rest == rest;
      }
    }
  }

  /** A header and blocks with the content x are a frame whose meaning is x and what follows. */
  lemma FrameMeans(e: Env, info: Info, blocks: seq<byte>, x: seq<byte>, rest: seq<byte>)
    requires info.Valid() && Decodes(e, info, [], blocks, x)
    ensures Frame(e, HeaderBytes(info, e.xxh) + blocks + rest) == Prepend(x, Run(e, At(info, x), AtBlock, rest))
  {
    hide HeaderBytes;
    var h := HeaderBytes(info, e.xxh);
    HeaderRoundTrip(info, e.xxh, blocks + rest);
    assert h + blocks + rest == h + (blocks + rest);
    assert StartOf(Fresh(0), info, info.contentSize > 0) == At(info, []);
    HeaderOutcome(e, Fresh(0), h + (blocks + rest), h + (blocks + rest));
    assert (h + (blocks + rest))[|h|..] == blocks + rest;
    assert [] + x == x;
  }

  /** The bytes f are a frame with the content x, whatever follows them, for a context that expects
      nothing from before; for any context, when the frame gives its size; else they are refused at
      the end, when all of x is out. */
  ghost predicate IsFrame(e: Env, f: seq<byte>, x: seq<byte>, sized: bool) {
    forall rem: nat, rest: seq<byte> ::
      FrameFrom(e, rem, f + rest)
      == Outcome(x, if rem == 0 || sized then Done(rest, 0) else Refused(FrameSizeWrong))
  }

  /** A header, blocks and an end are a frame, if the size is the one announced. */
  lemma WholeFrame(e: Env, info: Info, blocks: seq<byte>, x: seq<byte>)
    requires info.Valid() && Decodes(e, info, [], blocks, x) && e.xxh(x) < U32 && At(info, x).rem == 0
    ensures IsFrame(e, HeaderBytes(info, e.xxh) + blocks + EndBytes(x, info, e.xxh), x, info.contentSize > 0)
  {
    hide Run, Decodes, HeaderBytes, EndBytes, Frame, FrameFrom;
    var h, end := HeaderBytes(info, e.xxh), EndBytes(x, info, e.xxh);
    var f := h + blocks + end;
    forall rem: nat, rest: seq<byte>
      ensures FrameFrom(e, rem, f + rest)
           == Outcome(x, if rem == 0 || info.contentSize > 0 then Done(rest, 0) else Refused(FrameSizeWrong))
    {
      FrameMeans(e, info, blocks, x, end + rest);
      FrameEnds(e, info, x, rest);
      assert f + rest == h + blocks + (end + rest) == h + (blocks + (end + rest));
      assert x + [] == x;
      HeaderRoundTrip(info, e.xxh, blocks + (end + rest));
      CompleteAfterReset(e, rem, f + rest);
      FromNothing(e, f + rest);
    }
  }

  lemma FromNothing(e: Env, s: seq<byte>)
    ensures FrameFrom(e, 0, s) == Frame(e, s)
  {
  }

  /** The empty frame that gives no size: complete on a context that expects nothing, refused on
      any other. */
  lemma EmptyFrameAfterReset(e: Env, rem: nat, info: Info, rest: seq<byte>)
    requires info.Valid() && info.contentSize == 0 && e.xxh([]) < U32
    ensures FrameFrom(e, rem, HeaderBytes(info, e.xxh) + EndBytes([], info, e.xxh) + rest)
         == Outcome([], if rem == 0 then Done(rest, 0) else Refused(FrameSizeWrong))
  {
    hide Run, Decodes, HeaderBytes, EndBytes, Frame, FrameFrom;
    NoBlocks(e, info, []);
    WholeFrame(e, info, [], []);
    assert HeaderBytes(info, e.xxh) + [] == HeaderBytes(info, e.xxh);
  }
}
