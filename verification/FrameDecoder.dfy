/** LZ4F_decompress: the resumable decoder, a state machine over its stages that buffers
    what it cannot use yet and keeps the last 64 KB of output within reach. */
module FrameDecoder {
  import opened Lz4Format
  import opened FrameFormat
  import opened FrameBytes
  import opened FrameReset

  const GB1 := 0x4000_0000

  datatype Stage =
    | GetFrameHeader | StoreFrameHeader
    | Init
    | GetBlockHeader | StoreBlockHeader
    | CopyDirect | GetBlockChecksum
    | GetCBlock | StoreCBlock
    | FlushOut
    | GetSuffix | StoreSuffix
    | GetSFrameSize | StoreSFrameSize
    | SkipSkippable

  /** How a turn of the state machine ends: go on with the next stage, ask for another call
      with a hint of how much input to bring, a complete frame, or an error. */
  datatype Turn = More | Stop(hint: pos) | Finished | Failed(error: Error)

  /** The turns of a machine come to an end: less input is left, or the stage is simpler. */
  function StageRank(s: Stage): nat {
    match s
    case GetFrameHeader => 3
    case Init => 3
    case FlushOut => 3
    case GetBlockHeader => 2
    case StoreBlockHeader => 1
    case CopyDirect => 1
    case GetBlockChecksum => 1
    case GetCBlock => 2
    case StoreCBlock => 1
    case GetSuffix => 2
    case StoreSuffix => 1
    case StoreFrameHeader => 2
    case GetSFrameSize => 2
    case StoreSFrameSize => 1
    case SkipSkippable => 0
  }

  /** The sizes of what is stored and of what is wanted fit the stage. */
  predicate Fits(s: Stage, have: nat, want: nat, info: Info, rem: nat) {
    match s
    case StoreBlockHeader => have < BH_SIZE
    case CopyDirect => want > 0
    case GetBlockChecksum => have < 4 && info.blockChecksum
    case GetCBlock => info.CrcSize() < want <= info.MaxBlockSize() + info.CrcSize()
    case StoreCBlock => info.CrcSize() < want <= info.MaxBlockSize() + info.CrcSize() && have < want
    case StoreSuffix => have < 4 && rem == 0 && info.contentChecksum
    case StoreSFrameSize => 4 <= have < want == 8
    case _ => true
  }

  /** The buffers were allocated together, for one of the four block sizes and with or without
      room for a history, or not at all. */
  predicate SizesFit(tmpInLength: nat, tmpOutLength: nat) {
    tmpOutLength > 0 ==>
      && tmpInLength - BF_SIZE in {0x1_0000, 0x4_0000, 0x10_0000, 0x40_0000}
      && tmpOutLength - (tmpInLength - BF_SIZE) in {0, KB128}
  }

  /** Buffers that are large enough in sum are large enough each: the block sizes are far apart. */
  lemma LargeEnough(tmpInLength: nat, tmpOutLength: nat, info: Info)
    requires SizesFit(tmpInLength, tmpOutLength) && info.Valid()
    requires info.MaxBlockSize() + (if info.linked then KB128 else 0) <= tmpOutLength
    ensures info.MaxBlockSize() + BF_SIZE <= tmpInLength
  {
  }

  /** The two error codes of the block decoder are one refusal of the format. */
  function Kind(e: Error): Error {
    if e == Generic then DecompressionFailed else e
  }

  /** The last n bytes. */
  function LastOf(s: seq<byte>, n: nat): (r: seq<byte>)
    requires n <= |s|
    ensures |r| == n
  {
    s[|s| - n..]
  }

  /** How many bytes have to be kept in front of a block of that size, when there is room
      for that many. */
  function Keep(size: nat, room: nat): (k: nat)
    ensures k <= room
  {
    if size > KB64 then 0 else Min(KB64 - size, room)
  }

  /** A block b at offset room of tmpOutBuffer has been handed out up to `out`, and d ends with
      that: what must be kept in front of b is in d, and with b it ends like the past.  If the
      two are less than 64 KB, nothing else lies in front of b. */
  ghost predicate KeptFits(d: seq<byte>, b: seq<byte>, out: nat, room: nat, past: seq<byte>) {
    var k := Keep(|b|, room);
    && (k > 0 ==> out + k <= |d|)
    && var kept := if k == 0 then [] else d[|d| - out - k..|d| - out];
       && Tail64(kept + b) == Tail64(past)
       && (k + |b| < KB64 ==> room == k)
  }

  /** Handing out more of the block, with the dictionary growing by it. */
  lemma KeptGrows(d: seq<byte>, x: seq<byte>, b: seq<byte>, out: nat, room: nat, past: seq<byte>)
    requires KeptFits(d, b, out, room, past)
    ensures KeptFits(d + x, b, out + |x|, room, past)
  {
    hide Tail64;
    var k := Keep(|b|, room);
    if k > 0 { assert (d + x)[|d| - out - k..|d| - out] == d[|d| - out - k..|d| - out]; }
  }

  lemma Handed(d: seq<byte>, x: seq<byte>, b: seq<byte>, out: nat, n: nat)
    requires out + n <= |b| && x == b[out..out + n]
    ensures d + x + b[out + n..] == d + b[out..]
  {
    assert b[out..] == x + b[out + n..];
    assert d + (x + b[out + n..]) == d + x + b[out + n..];
  }

  lemma EndOfEnd(s: seq<byte>, w: seq<byte>, b: seq<byte>, k: nat)
    requires EndsWith(s, w + b) && k <= |w|
    ensures EndsWith(s, w[|w| - k..] + b)
  {
    assert (w + b)[|w| - k..] == w[|w| - k..] + b;
  }

  /** Handing out the first n bytes of the block, with the output w of this call and these becoming
      the dictionary: it has 64 KB. */
  lemma KeptAtFirst(w: seq<byte>, b: seq<byte>, n: nat, room: nat, past: seq<byte>)
    requires n <= |b| && |w| + n >= KB64 && EndsWith(past, w + b)
    requires room + |b| < KB64 ==> |past| == room + |b|
    ensures KeptFits(w + b[..n], b, n, room, past)
    ensures Tail64(w + b[..n] + b[n..]) == Tail64(past)
  {
    hide Tail64, EndsWith;
    var k, d := Keep(|b|, room), w + b[..n];
    assert d + b[n..] == w + b;
    LongEnd(past, w + b);
    KeptEnds(past, w, b, k);
    if k > 0 {
      assert d[|d| - n - k..|d| - n] == w[|w| - k..];
    } else {
      assert w[|w| - k..] == [];
    }
  }

  lemma KeptEnds(past: seq<byte>, w: seq<byte>, b: seq<byte>, k: nat)
    requires EndsWith(past, w + b) && k <= |w| && (k + |b| >= KB64 || |past| == k + |b|)
    ensures Tail64(w[|w| - k..] + b) == Tail64(past)
  {
    hide Tail64;
    EndOfEnd(past, w, b, k);
    LongEnd(past, w[|w| - k..] + b);
  }

  /** Handing out more of the block, at the beginning of the output of this call. */
  lemma KeptLater(b: seq<byte>, out: nat, n: nat, room: nat, past: seq<byte>)
    requires out + n <= |b| && n >= KB64 && EndsWith(past, b)
    ensures KeptFits(b[out..out + n], b, out + n, room, past)
    ensures Tail64(b[out..out + n] + b[out + n..]) == Tail64(past)
  {
    hide Tail64;
    assert b[out..out + n] + b[out + n..] == b[out..];
    assert EndsWith(past, b[out..]);
    LongEnd(past, b[out..]);
    LongEnd(past, b);
    assert [] + b == b;
  }

  /** Handing out more of the block, with the output w of this call and that becoming the
      dictionary: it has 64 KB. */
  lemma KeptInOutput(w: seq<byte>, b: seq<byte>, out: nat, n: nat, room: nat, past: seq<byte>)
    requires out + n <= |b| && |w| + n >= KB64 && (out == 0 || w == [])
    requires EndsWith(past, if out == 0 then w + b else b)
    requires room + |b| < KB64 ==> |past| == room + |b|
    ensures KeptFits(w + b[out..out + n], b, out + n, room, past)
    ensures Tail64(w + b[out..out + n] + b[out + n..]) == Tail64(past)
  {
    hide Tail64, KeptFits, EndsWith;
    if out == 0 {
      KeptAtFirst(w, b, n, room, past);
      assert b[0..n] == b[..n];
    } else {
      KeptLater(b, out, n, room, past);
      assert w + b[out..out + n] == b[out..out + n];
    }
  }

  /** The dictionary h that has joined the output keeps what must be kept. */
  lemma KeptJoined(d: seq<byte>, w: seq<byte>, x: seq<byte>, b: seq<byte>, s: nat, size: nat, room: nat,
                   past: seq<byte>, joins: bool)
    requires s + size <= |b| && x == b[s..s + size]
    requires if joins then Tail64(d + b[s..]) == Tail64(past) && KeptFits(d, b, s, room, past)
             else && |w| + size >= KB64 && EndsWith(past, if s == 0 then w + b else b) && (s == 0 || w == [])
                  && (room + |b| < KB64 ==> |past| == room + |b|)
    ensures var h := if joins then d + x else w + x;
            Tail64(h + b[s + size..]) == Tail64(past) && KeptFits(h, b, s + size, room, past)
  {
    hide Tail64, KeptFits, EndsWith;
    if joins {
      Handed(d, x, b, s, size);
      KeptGrows(d, x, b, s, room, past);
    } else {
      KeptInOutput(w, b, s, size, room, past);
    }
  }

  /** Moving what must be kept in front of the block keeps the end of the past. */
  lemma KeptMoved(front: seq<byte>, kept: seq<byte>, b: seq<byte>, past: seq<byte>)
    requires Tail64(kept + b) == Tail64(past) && (|kept| + |b| < KB64 ==> front == [])
    ensures Tail64(front + kept + b) == Tail64(past)
  {
    assert front + kept + b == front + (kept + b);
    LongEnd(front + (kept + b), kept + b);
  }

  /** LZ4F_dctx.  Positions stand for pointers: dict is a buffer and an offset, tmpOut an
      offset in tmpOutBuffer.  A checksum state is the bytes it has been fed.  The ghost
      fields are the predefined dictionary and all the content decoded in this frame. */
  class Dctx {
    const dec: (seq<byte>, seq<byte>, nat) -> Option<seq<byte>>
    const hash: seq<byte> -> nat
    var info: Info
    var dStage: Stage
    var frameRemainingSize: nat
    var maxBufferSize: nat
    var tmpIn: array<byte>
    var tmpInSize: nat
    var tmpInTarget: nat
    var tmpOutBuffer: array<byte>
    var dict: array?<byte>
    var dictOff: nat
    var dictSize: nat
    var tmpOut: nat
    var tmpOutSize: nat
    var tmpOutStart: nat
    var xxh: seq<byte>
    var blockChecksum: seq<byte>
    const header: array<byte>
    ghost var predefined: seq<byte>
    ghost var content: seq<byte>

    ghost function Internal(): set<object>
      reads `tmpIn, `tmpOutBuffer
    {
      {this, tmpIn, tmpOutBuffer, header}
    }

    // ------------------------------------------------------------ abstraction

    ghost function Environment(): Env
      reads `predefined
    {
      Env(dec, hash, predefined)
    }

    ghost function Progress(): State
      reads `info, `frameRemainingSize, `content
    {
      State(info, frameRemainingSize, content)
    }

    /** The dictionary: what the block decoder is given as history. */
    ghost function Dict(): (h: seq<byte>)
      requires dict != null ==> dictOff + dictSize <= dict.Length
      ensures dict != null ==> |h| == dictSize
      reads `dict, `dictOff, `dictSize, dict
    {
      if dict == null then [] else dict[dictOff..dictOff + dictSize]
    }

    /** Decoded content that has not been handed out yet. */
    ghost function Pending(): seq<byte>
      requires Buffers()
      reads this, tmpIn, tmpOutBuffer, header
    {
      if dStage == FlushOut then tmpOutBuffer[tmpOut + tmpOutStart..tmpOut + tmpOutSize] else []
    }

    /** Input that has been read but not used yet. */
    ghost function Buffered(): seq<byte>
      requires Buffers()
      reads this, tmpIn, tmpOutBuffer, header
    {
      match dStage
      case StoreFrameHeader => header[..tmpInSize]
      case StoreBlockHeader => tmpIn[..tmpInSize]
      case GetBlockChecksum => header[..tmpInSize]
      case StoreCBlock => tmpIn[..tmpInSize]
      case StoreSuffix => tmpIn[..tmpInSize]
      case StoreSFrameSize => header[4..tmpInSize]
      case _ => []
    }

    ghost function CurrentPhase(): Phase
      requires Buffers()
      reads this, tmpIn, tmpOutBuffer, header
    {
      match dStage
      case GetFrameHeader => AtHeader
      case StoreFrameHeader => AtHeader
      case CopyDirect => InRaw(tmpInTarget, if info.blockChecksum then blockChecksum else [])
      case GetBlockChecksum => AtRawChecksum(blockChecksum)
      case GetCBlock => AtCBlock(tmpInTarget - info.CrcSize())
      case StoreCBlock => AtCBlock(tmpInTarget - info.CrcSize())
      case GetSuffix => AtSuffix
      case StoreSuffix => AtSuffix
      case GetSFrameSize => AtSkipSize
      case StoreSFrameSize => AtSkipSize
      case SkipSkippable => InSkip(tmpInTarget)
      case _ => AtBlock
    }

    /** What the rest of the input will give, from here on. */
    ghost function Future(rest: seq<byte>): Outcome
      requires Buffers()
      reads this, tmpIn, tmpOutBuffer, header
    {
      Prepend(Pending(), Run(Environment(), Progress(), CurrentPhase(), Buffered() + rest))
    }

    // -------------------------------------------------------------- invariant

    predicate InFrame()
      reads `dStage
    {
      dStage !in {GetFrameHeader, StoreFrameHeader, GetSFrameSize, StoreSFrameSize, SkipSkippable}
    }

    /** The stages between which blocks still come: [init .. getSuffix[. */
    predicate Decoding()
      reads `dStage
    {
      InFrame() && dStage !in {GetSuffix, StoreSuffix}
    }

    function BufferNeeded(): nat
      reads `info
    {
      info.MaxBlockSize() + (if info.linked then KB128 else 0)
    }

    /** The internal buffers are large enough for the blocks of this frame. */
    predicate Roomy()
      reads `info, `maxBufferSize, `tmpIn
    {
      BufferNeeded() <= maxBufferSize && info.MaxBlockSize() + BF_SIZE <= tmpIn.Length
    }

    /** The internal buffers are apart and as large as the frames so far needed. */
    ghost predicate Shape()
      reads `tmpIn, `tmpOutBuffer, `maxBufferSize, `tmpOutStart, `tmpOutSize
    {
      && header.Length == MAX_FH_SIZE && header != tmpIn && header != tmpOutBuffer && tmpIn != tmpOutBuffer
      && tmpOutBuffer.Length == maxBufferSize
      && SizesFit(tmpIn.Length, maxBufferSize)
      && tmpOutStart <= tmpOutSize
    }

    /** The internal buffers fit the stage. */
    ghost predicate Buffers()
      reads this, tmpIn, tmpOutBuffer, header
    {
      && Shape()
      && (InFrame() ==> info.Valid())
      && (InFrame() && dStage != Init ==> Roomy() && (info.linked || tmpOut == 0))
      && (dStage == FlushOut ==> tmpOut + tmpOutSize <= tmpOutBuffer.Length)
      && (dStage == StoreFrameHeader ==> HeaderStored())
      && Fits(dStage, tmpInSize, tmpInTarget, info, frameRemainingSize)
    }

    /** Part of a header is stored: at most the 7 bytes that tell its size, or more of it
        once these are known. */
    ghost predicate HeaderStored()
      reads this, header
    {
      && header.Length == MAX_FH_SIZE
      && tmpInSize < tmpInTarget <= MAX_FH_SIZE && MIN_FH_SIZE <= tmpInTarget
      && ParseHeader(header[..tmpInSize], hash).Incomplete?
      && (tmpInTarget > MIN_FH_SIZE ==> tmpInSize >= MIN_FH_SIZE && tmpInTarget == FlgSize(header[4]))
    }

    ghost predicate DictOk()
      reads `dict, `dictOff, `dictSize, `tmpIn, `tmpOutBuffer, `dStage, `info
    {
      && dict != tmpIn && dict != header
      && (dict != null ==> dictOff + dictSize <= dict.Length)
      && (dict == null ==> dictSize == 0)
      && (dict == tmpOutBuffer ==> dictOff == 0 && InFrame() && dStage != Init && info.linked)
    }

    /** The content of the frame so far, after the predefined dictionary. */
    ghost function Past(): seq<byte>
      reads `predefined, `content
    {
      predefined + content
    }

    /** The dictionary and what is pending end with the last 64 KB of the past; when blocks
        are independent, the dictionary is the predefined one. */
    ghost predicate HistoryOk()
      requires Buffers() && DictOk()
      reads this, tmpIn, tmpOutBuffer, header, dict
    {
      if Decoding() && info.linked then
        Tail64(if dStage == FlushOut then Dict() + Pending() else Dict()) == Tail64(Past())
      else (InFrame() && !Decoding()) || Dict() == predefined
    }

    /** The block in tmpOut, handed out or not. */
    ghost function Block(): (b: seq<byte>)
      requires Buffers() && dStage == FlushOut
      ensures |b| == tmpOutSize
      reads this, tmpIn, tmpOutBuffer, header
    {
      tmpOutBuffer[tmpOut..tmpOut + tmpOutSize]
    }

    /** While a linked block is being handed out from tmpOut: either the dictionary lies in
        front of it, or what must be kept can still be moved there. */
    ghost predicate FlushOk()
      requires Buffers() && DictOk()
      reads this, tmpIn, tmpOutBuffer, header, dict
    {
      dStage == FlushOut && info.linked ==>
        if dict == tmpOutBuffer then dictSize == tmpOut + tmpOutStart
        else KeptFits(Dict(), Block(), tmpOutStart, tmpOut, Past())
    }

    ghost predicate Valid()
      reads this, tmpIn, tmpOutBuffer, header, dict
    {
      && GoodEnv(Env(dec, hash, []))
      && Buffers() && DictOk() && HistoryOk() && FlushOk()
      && (InFrame() && info.contentChecksum && dStage != Init ==> xxh == content)
      && (dStage == Init ==> content == [])
      && (dStage == FlushOut ==> tmpOutSize <= |content| && content[|content| - tmpOutSize..] == Block())
      && frameRemainingSize < U64
    }

    /** What holds before and after a frame and while its header is read. */
    ghost predicate Outside()
      reads `dStage, `info, `maxBufferSize, `tmpOutStart, `tmpOutSize, `tmpIn, `tmpOutBuffer
      reads `dict, `dictOff, `dictSize, `predefined, `frameRemainingSize, dict
    {
      && GoodEnv(Env(dec, hash, [])) && Shape() && DictOk() && !InFrame()
      && Dict() == predefined && frameRemainingSize < U64
    }

    /** What is left even after an error: enough for a reset to make the context fit again. */
    ghost predicate Sound()
      reads `tmpIn, `tmpOutBuffer, `maxBufferSize, `tmpOutStart, `tmpOutSize, `frameRemainingSize
    {
      GoodEnv(Env(dec, hash, [])) && Shape() && frameRemainingSize < U64
    }

    lemma ValidIsSound()
      requires Valid()
      ensures Sound()
    {
      hide Tail64, GoodEnv, KeptFits, HeaderStored, SizesFit;
    }

    lemma OpenedOutside()
      requires Valid() && !InFrame()
      ensures Outside() && Buffers()
    {
      hide Tail64, GoodEnv, KeptFits, HeaderStored, SizesFit;
    }

    lemma SettledOutside()
      requires Outside() && Buffers()
      ensures Valid()
    {
      hide Tail64, GoodEnv, KeptFits, HeaderStored, SizesFit;
    }

    lemma SettledInit()
      requires GoodEnv(Env(dec, hash, [])) && Shape() && DictOk() && dStage == Init && info.Valid()
      requires content == [] && Dict() == predefined && frameRemainingSize < U64
      ensures Valid() && Buffers()
    {
      hide Tail64, GoodEnv, KeptFits, HeaderStored, SizesFit;
      assert Past() == predefined;
    }

    /** What holds from one block to the next and while a block is read. */
    ghost predicate BetweenBlocks()
      reads `info, `dStage, `tmpOut, `maxBufferSize, `tmpOutStart, `tmpOutSize, `tmpIn, `tmpOutBuffer
      reads `dict, `dictOff, `dictSize, `xxh, `content, `predefined, `frameRemainingSize, dict
    {
      && GoodEnv(Env(dec, hash, [])) && Shape() && DictOk()
      && info.Valid() && Roomy() && (info.linked || tmpOut == 0)
      && dStage in {GetBlockHeader, StoreBlockHeader, CopyDirect, GetBlockChecksum, GetCBlock, StoreCBlock}
      && (if info.linked then Tail64(Dict()) == Tail64(Past()) else Dict() == predefined)
      && (info.contentChecksum ==> xxh == content)
      && frameRemainingSize < U64
    }

    /** The output of this call so far is the latest content. */
    ghost predicate Latest(dst: array<byte>, start: nat, q: nat, end: nat)
      reads `dict, `dictOff, `dictSize, `info, `content, `tmpIn, `tmpOutBuffer, dst
    {
      && start <= q <= end <= dst.Length && dst !in Internal()
      && (dict == dst ==> dictOff + dictSize <= q || end <= dictOff)
      && (info.linked ==> EndsWith(content, dst[start..q]))
    }

    /** The dictionary, if it is in that buffer, ends in front of position q. */
    predicate Behind(dst: array<byte>, q: nat)
      reads `dict, `dictOff, `dictSize
    {
      dict == dst ==> dictOff + dictSize <= q
    }

    /** LZ4F_createDecompressionContext. */
    constructor (dec: (seq<byte>, seq<byte>, nat) -> Option<seq<byte>>, hash: seq<byte> -> nat)
      requires GoodEnv(Env(dec, hash, []))
      ensures Valid() && dStage == GetFrameHeader && predefined == [] && dict == null && fresh(Internal())
      ensures this.dec == dec && this.hash == hash
    {
      this.dec, this.hash := dec, hash;
      info := Info(true, false, false, 0, 0, 0);
      dStage, frameRemainingSize, maxBufferSize := GetFrameHeader, 0, 0;
      tmpIn, tmpOutBuffer, header := new byte[0], new byte[0], new byte[MAX_FH_SIZE];
      tmpInSize, tmpInTarget, dict, dictOff, dictSize := 0, 0, null, 0, 0;
      tmpOut, tmpOutSize, tmpOutStart, xxh, blockChecksum := 0, 0, 0, [], [];
      predefined, content := [], [];
    }

    /** LZ4F_resetDecompressionContext, at any time: between frames, in mid-frame, after an error.
        The size that a frame still expected stays. */
    method Reset()
      requires Sound()
      modifies `dStage, `dict, `dictSize, `predefined
      ensures Valid() && dStage == GetFrameHeader && dict == null && predefined == []
    {
      hide GoodEnv, Tail64, SizesFit;
      dStage, dict, dictSize := GetFrameHeader, null, 0;
      predefined := [];
    }

    // ----------------------------------------------------------------- header

    /** LZ4F_decodeHeader on the bytes s, which come from the input or, when own, are those
        stored in header.  size is the number of bytes used. */
    method DecodeHeader(s: seq<byte>, own: bool) returns (error: Option<Error>, size: nat)
      requires header.Length == MAX_FH_SIZE && |s| >= MIN_FH_SIZE
      requires own ==> |s| <= MAX_FH_SIZE && s == header[..|s|]
                       && (|s| > MIN_FH_SIZE ==> LE32(s, 0) / 16 != MAGIC_SKIPPABLE_START / 16
                                                 && |s| == FlgSize(s[4]))
      modifies this, header
      ensures unchanged(`dict, `dictOff, `dictSize, `tmpIn, `tmpOutBuffer, `maxBufferSize, `predefined)
      ensures unchanged(`tmpOut, `tmpOutSize, `tmpOutStart)
      ensures error.Some? ==> size == 0
      ensures var h := ParseHeader(s, hash);
              frameRemainingSize == if h.Header? && h.sized then h.info.contentSize else old(frameRemainingSize)
      ensures match ParseHeader(s, hash)
              case Invalid(e) => error == Some(e)
              case Incomplete => error == None && size == |s| && dStage == StoreFrameHeader
                                 && tmpInSize == |s| && HeaderStored() && header[..tmpInSize] == s
              case Skippable => error == None &&
                                if own then dStage == StoreSFrameSize && tmpInSize == |s| == MIN_FH_SIZE
                                            && tmpInTarget == 8 && header[..MIN_FH_SIZE] == s && size == |s|
                                else dStage == GetSFrameSize && size == 4
              case Header(i, sized, n) => error == None && size == n && dStage == Init && info == i
                                          && content == [] && Past() == predefined
    {
      info := Info(true, false, false, 0, 0, 0);
      if LE32(s, 0) / 16 == MAGIC_SKIPPABLE_START / 16 {
        error := None;
        if own {
          tmpInSize, tmpInTarget, dStage, size := |s|, 8, StoreSFrameSize, |s|;
        } else {
          dStage, size := GetSFrameSize, 4;
        }
        return;
      }
      if LE32(s, 0) != MAGICNUMBER { return Some(FrameTypeUnknown), 0; }
      var flg := s[4];
      if flg / 2 % 2 != 0 { return Some(ReservedFlagSet), 0; }
      if flg / 64 != 1 { return Some(HeaderVersionWrong), 0; }
      var frameHeaderSize := FlgSize(flg);
      if |s| < frameHeaderSize {
        StorePartialHeader(s, own);
        tmpInSize, tmpInTarget, dStage := |s|, frameHeaderSize, StoreFrameHeader;
        assert header[..|s|] == s && header[4] == s[4];
        return None, |s|;
      }
      var bd := s[5];
      if bd / 128 != 0 { return Some(ReservedFlagSet), 0; }
      if bd / 16 % 8 < 4 { return Some(MaxBlockSizeInvalid), 0; }
      if bd % 16 != 0 { return Some(ReservedFlagSet), 0; }
      if hash(s[4..frameHeaderSize - 1]) / 256 % 256 != s[frameHeaderSize - 1] {
        return Some(HeaderChecksumInvalid), 0;
      }
      var contentSize := 0;
      if flg / 8 % 2 == 1 {
        contentSize := LE64(s, 6);
        frameRemainingSize := contentSize;
      }
      info := Info(flg / 32 % 2 == 0, flg / 16 % 2 == 1, flg / 4 % 2 == 1, bd / 16 % 8, contentSize,
                   if flg % 2 == 1 then LE32(s, frameHeaderSize - 5) else 0);
      dStage, content := Init, [];
      assert predefined + content == predefined;
      return None, frameHeaderSize;
    }

    method StorePartialHeader(s: seq<byte>, own: bool)
      requires |s| <= header.Length == MAX_FH_SIZE && (own ==> s == header[..|s|])
      modifies header
      ensures header[..|s|] == s
    {
      if !own { CopyIn(header, 0, s, 0, |s|); }
    }

    /** Puts n bytes of the input behind those in header. */
    method HeaderInput(src: seq<byte>, p0: nat, n: nat, from: nat)
      requires from <= tmpInSize && tmpInSize + n <= header.Length && p0 + n <= |src|
      modifies header
      ensures header[from..tmpInSize + n] == old(header[from..tmpInSize]) + src[p0..p0 + n]
      ensures header[..tmpInSize] == old(header[..tmpInSize])
    {
      ghost var b, k := header[from..tmpInSize], tmpInSize;
      CopyIn(header, tmpInSize, src, p0, n);
      assert header[from..k] == b && header[k..k + n] == src[p0..p0 + n];
    }

    // ------------------------------------------------------------- one turn

    /** The output area dst[start..end) of this call, filled up to q: writing the rest of
        it leaves the dictionary alone, and what it holds is the latest output. */
    ghost predicate Io(dst: array<byte>, start: nat, q: nat, end: nat)
      requires Buffers() && DictOk()
      reads this, tmpIn, tmpOutBuffer, header, dst
    {
      && start <= q <= end <= dst.Length && dst !in Internal()
      && (dict == dst ==> dictOff + dictSize <= q || end <= dictOff)
      && (!InFrame() ==> q == start)
      && (Decoding() && info.linked ==>
            |Pending()| <= |content| && EndsWith(content[..|content| - |Pending()|], dst[start..q]))
      && (dStage == FlushOut ==> tmpOutStart == 0 || q == start)
    }

    /** How much input the next call should bring: what the current field still needs and, where a block or
        another field must follow, the size of its header. */
    function Hint(): int
      reads `dStage, `tmpInTarget, `tmpInSize, `info
    {
      match dStage
      case GetFrameHeader => MIN_FH_SIZE
      case StoreFrameHeader => tmpInTarget - tmpInSize + BH_SIZE
      case StoreBlockHeader => BH_SIZE - tmpInSize
      case CopyDirect => tmpInTarget + info.CrcSize() + BH_SIZE
      case GetBlockChecksum => 1
      case GetCBlock => BH_SIZE + tmpInTarget
      case StoreCBlock => tmpInTarget - tmpInSize + info.CrcSize() + BH_SIZE
      case FlushOut => BH_SIZE
      case StoreSuffix => 4 - tmpInSize
      case StoreSFrameSize => tmpInTarget - tmpInSize
      case SkipSkippable => tmpInTarget
      case _ => 0
    }

    /** What a turn that used n bytes of rest and wrote out must have done to the future. */
    ghost predicate Turned(before: Outcome, t: Turn, out: seq<byte>, rest: seq<byte>, n: nat)
      requires Buffers() && n <= |rest| && !t.Failed?
      reads this, tmpIn, tmpOutBuffer, header
    {
      && (t.Stop? ==> t.hint == Hint())
      && if t.Finished? then before == Outcome(out, Done(rest[n..], frameRemainingSize)) && dStage == GetFrameHeader
         else before == Prepend(out, Future(rest[n..]))
    }

    lemma BuffersOk()
      requires Valid()
      ensures Buffers()
    {
      hide Tail64, GoodEnv, KeptFits, SizesFit, HeaderStored;
    }

    lemma FutureKept(before: Outcome, t: Turn, out: seq<byte>, rest: seq<byte>, n: nat)
      requires Buffers() && n <= |rest| && !t.Failed? && (t.Stop? ==> t.hint == Hint())
      requires if t.Finished? then
                 before == Outcome(out, Done(rest[n..], frameRemainingSize)) && dStage == GetFrameHeader
               else before == Prepend(out, Future(rest[n..]))
      ensures Turned(before, t, out, rest, n)
    {
      hide Run, SizesFit;
    }

    /** A turn that used no input. */
    lemma NothingUsed(before: Outcome, t: Turn, out: seq<byte>, rest: seq<byte>)
      requires Buffers() && !t.Failed? && (t.Stop? ==> t.hint == Hint())
      requires if t.Finished? then before == Outcome(out, Done(rest, frameRemainingSize)) && dStage == GetFrameHeader
               else before == Prepend(out, Future(rest))
      ensures Turned(before, t, out, rest, 0)
    {
      hide Run, SizesFit;
      assert rest[0..] == rest;
    }

    /** Nothing can be told of what comes next without more input. */
    ghost predicate Starved()
      requires Buffers()
      reads this, tmpIn, tmpOutBuffer, header
    {
      Future([]) == Outcome([], Short)
    }

    lemma StarvedHere()
      requires Buffers()
      requires dStage in {GetFrameHeader, StoreFrameHeader, StoreBlockHeader, CopyDirect, GetBlockChecksum, StoreCBlock,
                          StoreSuffix, StoreSFrameSize} || (dStage == SkipSkippable && tmpInTarget > 0)
      ensures Starved()
    {
      var b := Buffered();
      assert b + [] == b && [] + b == b;
      if dStage == GetFrameHeader { ShortHeader(b, hash); }
      assert Run(Environment(), Progress(), CurrentPhase(), b) == Outcome([], Short);
    }

    lemma PlainFuture(rest: seq<byte>)
      requires Buffers() && dStage != FlushOut
      ensures Future(rest) == Run(Environment(), Progress(), CurrentPhase(), Buffered() + rest)
      ensures Prepend([], Future(rest)) == Future(rest)
      ensures Buffered() == [] ==> Future(rest) == Run(Environment(), Progress(), CurrentPhase(), rest)
    {
      hide Run, SizesFit;
      PrependNothing(Run(Environment(), Progress(), CurrentPhase(), Buffered() + rest));
      PrependNothing(Future(rest));
      assert [] + rest == rest;
    }

    /** dstage_getFrameHeader, falling through to dstage_storeFrameHeader. */
    method DoGetFrameHeader(src: seq<byte>, p0: nat, ghost rest: seq<byte>) returns (t: Turn, p: nat)
      requires Valid() && dStage == GetFrameHeader && p0 <= |src| && src[p0..] <= rest
      modifies this, header
      ensures p0 <= p <= |src| && unchanged(`dict, `dictOff, `dictSize, `tmpIn, `tmpOutBuffer, `predefined)
      ensures t.Failed? ==> old(Future(rest)).end == Refused(Kind(t.error)) && Sound()
      ensures !t.Failed? ==> Valid() && Turned(old(Future(rest)), t, [], rest, p - p0)
                             && (dStage == Init || !InFrame())
      ensures t.More? ==> p > p0
      ensures t.Stop? ==> p == |src| && dStage != Init && Starved()
      ensures !t.Finished?
    {
      hide Run, ParseHeader, Tail64, GoodEnv, KeptFits, Starved, Valid, HistoryOk, FlushOk, SizesFit, Turned;
      OpenedOutside();
      ghost var before := Future(rest);
      p := p0;
      PlainFuture(rest);
      if |src| - p >= MAX_FH_SIZE {
        t, p := DecodeFromInput(src, p, rest);
        return;
      }
      tmpInSize := 0;
      if |src| - p == 0 {
        PlainFuture(rest);
        NothingUsed(before, Stop(MIN_FH_SIZE), [], rest);
        StarvedHere();
        SettledOutside();
        return Stop(MIN_FH_SIZE), p;
      }
      tmpInTarget, dStage := MIN_FH_SIZE, StoreFrameHeader;
      ShortHeader(header[..tmpInSize], hash);
      PlainFuture(rest);
      SettledOutside();
      t, p := DoStoreFrameHeader(src, p, rest);
    }

    method DecodeFromInput(src: seq<byte>, p0: nat, ghost rest: seq<byte>) returns (t: Turn, p: nat)
      requires Valid() && dStage == GetFrameHeader && p0 + MAX_FH_SIZE <= |src| && src[p0..] <= rest
      modifies this, header
      ensures p0 <= p <= |src| && unchanged(`dict, `dictOff, `dictSize, `tmpIn, `tmpOutBuffer, `predefined)
      ensures t.Failed? ==> old(Future(rest)).end == Refused(Kind(t.error)) && Sound()
      ensures !t.Failed? ==> t == More && Valid() && Turned(old(Future(rest)), t, [], rest, p - p0)
                             && (dStage == Init || !InFrame()) && p > p0
    {
      hide Run, Tail64, GoodEnv, KeptFits, Starved, Valid, HistoryOk, FlushOk, SizesFit, Prepend, Roomy;
      OpenedOutside();
      PlainFuture(rest);
      ghost var e, st := Environment(), Progress();
      var error, size;
      error, size := DecodeHeader(src[p0..], false);
      p := p0 + size;
      HeaderOutcome(e, st, src[p0..], rest);
      if error.Some? { return Failed(error.value), p; }
      t := More;
      if dStage == Init { SettledInit(); } else { SettledOutside(); }
      PlainFuture(rest[size..]);
      if dStage == GetSFrameSize { SkipForgets(e, st, Environment(), Progress(), rest[4..]); }
    }

    /** dstage_storeFrameHeader. */
    method DoStoreFrameHeader(src: seq<byte>, p0: nat, ghost rest: seq<byte>) returns (t: Turn, p: nat)
      requires Valid() && dStage == StoreFrameHeader && p0 <= |src| && src[p0..] <= rest
      modifies this, header
      ensures p0 <= p <= |src| && (t.More? ==> p > p0)
      ensures unchanged(`dict, `dictOff, `dictSize, `tmpIn, `tmpOutBuffer, `predefined)
      ensures t.Failed? ==> old(Future(rest)).end == Refused(Kind(t.error)) && Sound()
      ensures !t.Failed? ==> Valid() && Turned(old(Future(rest)), t, [], rest, p - p0)
                             && (dStage == Init || !InFrame())
      ensures t.Stop? ==> p == |src| && dStage != Init && Starved()
      ensures !t.Finished?
    {
      hide Run, ParseHeader, Tail64, GoodEnv, KeptFits, Starved, Valid, HistoryOk, FlushOk, SizesFit, Dict, Shape;
      OpenedOutside();
      PlainFuture(rest);
      ghost var e, st, b0 := Environment(), Progress(), Buffered();
      var sizeToCopy := Min(tmpInTarget - tmpInSize, |src| - p0);
      HeaderInput(src, p0, sizeToCopy, 0);
      p := p0 + sizeToCopy;
      Ahead(src, p0, sizeToCopy, rest);
      Moved(b0, rest, sizeToCopy, header[..tmpInSize + sizeToCopy]);
      if tmpInSize + sizeToCopy < tmpInTarget {
        HeaderPart(b0, header[..tmpInSize + sizeToCopy]);
        tmpInSize := tmpInSize + sizeToCopy;
        t := Stop(tmpInTarget - tmpInSize + BH_SIZE);
        PlainFuture(rest[sizeToCopy..]);
        StarvedHere();
        SettledOutside();
      } else {
        assert header[..tmpInSize] == b0;
        t := DecodeOwn(rest[sizeToCopy..]);
      }
    }

    /** The next n bytes of this call's input are those of all the input. */
    lemma Ahead(src: seq<byte>, p: nat, n: nat, rest: seq<byte>)
      requires p + n <= |src| && src[p..] <= rest
      ensures src[p..p + n] == rest[..n] && src[p + n..] <= rest[n..]
    {
      assert rest[..n] == src[p..][..n];
      assert src[p + n..] == src[p..][n..] == rest[n..][..|src| - p - n];
    }

    /** Bytes moved from the input to a buffer are still to come. */
    lemma Moved(b0: seq<byte>, rest: seq<byte>, n: nat, b: seq<byte>)
      requires n <= |rest| && b == b0 + rest[..n]
      ensures b + rest[n..] == b0 + rest
    {
    }

    /** More of the header is stored, but not all of it. */
    lemma HeaderPart(b: seq<byte>, s: seq<byte>)
      requires header.Length == MAX_FH_SIZE && tmpInSize <= |s| < tmpInTarget <= MAX_FH_SIZE
      requires b == s[..tmpInSize] && s == header[..|s|] && ParseHeader(b, hash).Incomplete?
      requires tmpInTarget <= MIN_FH_SIZE || (tmpInSize >= MIN_FH_SIZE && tmpInTarget == FlgSize(header[4]))
      ensures ParseHeader(s, hash).Incomplete?
    {
      if |s| < MIN_FH_SIZE { ShortHeader(s, hash); } else { StillIncomplete(b, s, hash); }
    }

    /** The stored part of the header is complete: decodes it. */
    method DecodeOwn(ghost rest: seq<byte>) returns (t: Turn)
      requires Outside() && Buffers() && dStage == StoreFrameHeader
      requires tmpInTarget > MIN_FH_SIZE ==> tmpInTarget == FlgSize(header[4])
      modifies this, header
      ensures unchanged(`dict, `dictOff, `dictSize, `tmpIn, `tmpOutBuffer, `predefined)
      ensures t.Failed? ==> old(Run(Environment(), Progress(), AtHeader, header[..tmpInTarget] + rest)).end
                            == Refused(Kind(t.error)) && Sound()
      ensures !t.Failed? ==>
                && t == More && Valid() && (dStage == Init || !InFrame())
                && old(Run(Environment(), Progress(), AtHeader, header[..tmpInTarget] + rest)) == Future(rest)
    {
      hide Run, Tail64, GoodEnv, KeptFits, Starved, Valid, HistoryOk, FlushOk, SizesFit;
      ghost var e, st := Environment(), Progress();
      var b := header[..tmpInTarget];
      var error, size;
      if tmpInTarget > MIN_FH_SIZE { StillIncomplete(header[..tmpInSize], b, hash); }
      error, size := DecodeHeader(b, true);
      if !ParseHeader(b, hash).Incomplete? { HeaderOutcome(e, st, b, b + rest); }
      if error.Some? { return Failed(error.value); }
      t := More;
      if dStage == Init { SettledInit(); } else { SettledOutside(); }
      PlainFuture(rest);
      if dStage == StoreSFrameSize {
        SkipForgets(e, st, Environment(), Progress(), (b + rest)[4..]);
        assert (b + rest)[4..] == b[4..] + rest;
      } else if dStage == Init {
        assert (b + rest)[size..] == rest;
      } else {
        HeaderForgets(e, st, Progress(), b + rest);
      }
    }

    // ---------------------------------------------------------- block headers

    /** dstage_init: buffers large enough for this frame, then its first block header. */
    method DoInit(src: seq<byte>, p0: nat, dstFull: bool, ghost rest: seq<byte>) returns (t: Turn, p: nat)
      requires Valid() && dStage == Init && p0 <= |src| && src[p0..] <= rest
      modifies this, tmpIn
      ensures p0 <= p <= |src| && unchanged(`dict, `dictOff, `dictSize, `predefined, `content)
      ensures tmpIn == old(tmpIn) || fresh(tmpIn)
      ensures tmpOutBuffer == old(tmpOutBuffer) || fresh(tmpOutBuffer)
      ensures t.Failed? ==> old(Future(rest)).end == Refused(Kind(t.error)) && Sound()
      ensures !t.Failed? ==> Valid() && Turned(old(Future(rest)), t, [], rest, p - p0)
                             && InFrame() && dStage !in {Init, FlushOut} && info == old(info)
      ensures t.More? ==> p > p0
      ensures t.Stop? ==> dstFull || (p == |src| && Starved())
      ensures !t.Finished?
    {
      hide Run, Tail64, GoodEnv, KeptFits, Starved, SizesFit;
      SetUp(rest);
      t, p := DoGetBlockHeader(src, p0, dstFull, rest);
    }

    method SetUp(ghost rest: seq<byte>)
      requires Valid() && dStage == Init
      modifies this
      ensures unchanged(`dict, `dictOff, `dictSize, `predefined, `content, `info)
      ensures tmpIn == old(tmpIn) || fresh(tmpIn)
      ensures tmpOutBuffer == old(tmpOutBuffer) || fresh(tmpOutBuffer)
      ensures Valid() && dStage == GetBlockHeader && Future(rest) == old(Future(rest))
    {
      hide Run, Tail64, GoodEnv, KeptFits, Starved, SizesFit, FlushOk;
      PlainFuture(rest);
      if info.contentChecksum { xxh := []; }
      Allocate();
      EnterBlocks(rest);
    }

    method EnterBlocks(ghost rest: seq<byte>)
      requires GoodEnv(Env(dec, hash, [])) && Buffers() && DictOk() && HistoryOk() && dStage == Init
      requires frameRemainingSize < U64
      requires Roomy() && content == [] && (info.contentChecksum ==> xxh == [])
      modifies `tmpInSize, `tmpInTarget, `tmpOut, `tmpOutStart, `tmpOutSize, `dStage
      ensures Valid() && dStage == GetBlockHeader
      ensures Future(rest) == old(Run(Environment(), Progress(), AtBlock, rest))
    {
      hide Run, Tail64, GoodEnv, Starved, SizesFit, HeaderStored, BufferNeeded, Valid, FlushOk;
      assert Past() == predefined;
      tmpInSize, tmpInTarget, tmpOut, tmpOutStart, tmpOutSize := 0, 0, 0, 0, 0;
      dStage := GetBlockHeader;
      SettledBlocks();
      PlainFuture(rest);
    }

    /** New buffers when those of earlier frames are too small.  The sizes a frame can ask
        for are so far apart that old buffers large enough in sum are large enough each. */
    method Allocate()
      requires Shape() && info.Valid()
      modifies `maxBufferSize, `tmpIn, `tmpOutBuffer
      ensures Shape() && Roomy()
      ensures tmpIn == old(tmpIn) || fresh(tmpIn)
      ensures tmpOutBuffer == old(tmpOutBuffer) || fresh(tmpOutBuffer)
    {
      var bufferNeeded := BufferNeeded();
      if bufferNeeded > maxBufferSize {
        maxBufferSize := 0;
        tmpIn := new byte[info.MaxBlockSize() + BF_SIZE];
        tmpOutBuffer := new byte[bufferNeeded];
        maxBufferSize := bufferNeeded;
      } else {
        LargeEnough(tmpIn.Length, maxBufferSize, info);
      }
    }

    /** dstage_getBlockHeader, falling through to dstage_storeBlockHeader. */
    method DoGetBlockHeader(src: seq<byte>, p0: nat, dstFull: bool, ghost rest: seq<byte>) returns (t: Turn, p: nat)
      requires Valid() && dStage == GetBlockHeader && p0 <= |src| && src[p0..] <= rest
      modifies this, tmpIn
      ensures p0 <= p <= |src|
      ensures unchanged(`dict, `dictOff, `dictSize, `predefined, `content, `tmpIn, `tmpOutBuffer)
      ensures t.Failed? ==> old(Future(rest)).end == Refused(Kind(t.error)) && Sound()
      ensures !t.Failed? ==> Valid() && Turned(old(Future(rest)), t, [], rest, p - p0)
                             && InFrame() && dStage !in {Init, FlushOut} && info == old(info)
      ensures t.More? ==> p > p0
      ensures t.Stop? ==> dstFull || (p == |src| && Starved())
      ensures !t.Finished?
    {
      hide Run, Tail64, GoodEnv, KeptFits, Starved, Valid, HistoryOk, FlushOk, SizesFit, Past;
      OpenedBlocks();
      PlainFuture(rest);
      if |src| - p0 >= BH_SIZE {
        p := p0 + BH_SIZE;
        ghost var b := src[p0..p];
        Ahead(src, p0, BH_SIZE, rest);
        assert rest == b + rest[4..];
        t := DecodeBlockHeader(b, LE32(src, p0), dstFull, rest[4..]);
        if !t.Failed? { PlainFuture(rest[4..]); }
        return;
      }
      tmpInSize, dStage := 0, StoreBlockHeader;
      PlainFuture(rest);
      SettledBlocks();
      t, p := DoStoreBlockHeader(src, p0, dstFull, rest);
    }

    /** dstage_storeBlockHeader. */
    method DoStoreBlockHeader(src: seq<byte>, p0: nat, dstFull: bool, ghost rest: seq<byte>) returns (t: Turn, p: nat)
      requires Valid() && dStage == StoreBlockHeader && p0 <= |src| && src[p0..] <= rest
      modifies this, tmpIn
      ensures p0 <= p <= |src|
      ensures unchanged(`dict, `dictOff, `dictSize, `predefined, `content, `tmpIn, `tmpOutBuffer)
      ensures t.Failed? ==> old(Future(rest)).end == Refused(Kind(t.error)) && Sound()
      ensures !t.Failed? ==> Valid() && Turned(old(Future(rest)), t, [], rest, p - p0)
                             && InFrame() && dStage !in {Init, FlushOut} && info == old(info)
      ensures t.More? ==> p > p0
      ensures t.Stop? ==> dstFull || (p == |src| && Starved())
      ensures !t.Finished?
    {
      hide Run, Tail64, GoodEnv, KeptFits, Starved, Valid, HistoryOk, FlushOk, SizesFit;
      OpenedBlocks();
      PlainFuture(rest);
      ghost var b0 := Buffered();
      var sizeToCopy := Min(BH_SIZE - tmpInSize, |src| - p0);
      StoreInput(src, p0, sizeToCopy);
      p := p0 + sizeToCopy;
      Ahead(src, p0, sizeToCopy, rest);
      Moved(b0, rest, sizeToCopy, tmpIn[..tmpInSize]);
      if tmpInSize < BH_SIZE {
        t := Stop(BH_SIZE - tmpInSize);
        StarvedHere();
        SettledBlocks();
        PlainFuture(rest[sizeToCopy..]);
        return;
      }
      t := DecodeBlockHeader(tmpIn[..4], LE32(tmpIn[..4], 0), dstFull, rest[sizeToCopy..]);
      if !t.Failed? { PlainFuture(rest[sizeToCopy..]); }
    }

    lemma OpenedSuffix()
      requires Valid() && dStage in {GetSuffix, StoreSuffix}
      ensures GoodEnv(Env(dec, hash, [])) && Buffers() && DictOk() && Roomy() && (info.linked || tmpOut == 0)
      ensures (info.contentChecksum ==> xxh == content) && info.Valid() && Sound()
      ensures dStage == StoreSuffix ==> info.contentChecksum
    {
      hide Tail64, GoodEnv, KeptFits, HeaderStored, SizesFit;
    }

    lemma SettledSuffix()
      requires GoodEnv(Env(dec, hash, [])) && Shape() && DictOk() && info.Valid() && Roomy()
      requires (info.linked || tmpOut == 0) && frameRemainingSize < U64 && (info.contentChecksum ==> xxh == content)
      requires || dStage == GetSuffix
               || (dStage == StoreSuffix && tmpInSize < 4 && frameRemainingSize == 0 && info.contentChecksum)
      ensures Valid() && Buffers()
    {
      hide Tail64, GoodEnv, KeptFits, HeaderStored, SizesFit;
    }

    /** What a block header says; b are its bytes. */
    method DecodeBlockHeader(ghost b: seq<byte>, word: nat, dstFull: bool, ghost rest: seq<byte>) returns (t: Turn)
      requires BetweenBlocks() && dStage in {GetBlockHeader, StoreBlockHeader}
      requires |b| == BH_SIZE && word == LE32(b, 0)
      modifies this
      ensures unchanged(`dict, `dictOff, `dictSize, `predefined, `content, `tmpIn, `tmpOutBuffer, `info)
      ensures t.Failed? ==>
                old(Run(Environment(), Progress(), AtBlock, b + rest)).end == Refused(Kind(t.error)) && Sound()
      ensures !t.Failed? ==> Valid() && Buffers() && InFrame() && dStage !in {Init, FlushOut}
                             && (t.Stop? ==> dstFull && t.hint == Hint())
                             && old(Run(Environment(), Progress(), AtBlock, b + rest)) == Future(rest)
      ensures !t.Finished?
    {
      hide Run, Tail64, GoodEnv, KeptFits, Starved, Valid, SizesFit;
      BlockOutcome(Environment(), Progress(), b, rest);
      var nextCBlockSize := word % BLOCKUNCOMPRESSED_FLAG;
      if nextCBlockSize == 0 {
        dStage := GetSuffix;
        SettledSuffix();
        PlainFuture(rest);
        return More;
      }
      if nextCBlockSize > info.MaxBlockSize() { return Failed(MaxBlockSizeInvalid); }
      t := EnterBlock(nextCBlockSize, word >= BLOCKUNCOMPRESSED_FLAG, dstFull);
      PlainFuture(rest);
    }

    method EnterBlock(size: pos, uncompressed: bool, dstFull: bool) returns (t: Turn)
      requires BetweenBlocks() && size <= info.MaxBlockSize()
      modifies `tmpInTarget, `blockChecksum, `dStage
      ensures Valid() && Buffers() && Buffered() == [] && dStage in {CopyDirect, GetCBlock}
      ensures CurrentPhase() == if uncompressed then InRaw(size, []) else AtCBlock(size)
      ensures t.More? || (t.Stop? && dstFull && t.hint == Hint())
    {
      hide Run, Tail64, GoodEnv, Valid, HeaderStored, SizesFit;
      var crcSize := info.CrcSize();
      t := More;
      if uncompressed {
        tmpInTarget := size;
        if info.blockChecksum { blockChecksum := []; }
        dStage := CopyDirect;
      } else {
        tmpInTarget := size + crcSize;
        dStage := GetCBlock;
        if dstFull { t := Stop(BH_SIZE + size + crcSize); }
      }
      SettledBlocks();
    }

    // ---------------------------------------------------------------- history

    /** LZ4F_updateDict, as far as the dictionary can stay in, or move to, the output buffer. */
    method JoinDst(dst: array<byte>, q: nat, size: nat, start: nat, ghost w: seq<byte>, ghost x: seq<byte>)
      returns (done: bool)
      requires DictOk() && start <= q && q + size <= dst.Length && dst !in Internal()
      requires w == dst[start..q] && x == dst[q..q + size]
      modifies `dict, `dictOff, `dictSize
      ensures !done ==> unchanged(this) && dict != null && dictSize > 0 && q - start + size < KB64
      ensures done ==> DictOk() && dict == dst && dictOff + dictSize == q + size
                       && if old(dictSize) == 0 || (old(dict) == dst && old(dictOff + dictSize) == q)
                          then Dict() == old(Dict()) + x
                          else Dict() == w + x && dictSize >= KB64
      ensures old(Buffers() && dStage == FlushOut) ==> Buffers() && Block() == old(Block()) && Past() == old(Past())
      ensures !done && old(Buffers() && HistoryOk() && FlushOk()) ==> HistoryOk() && FlushOk()
    {
      hide HeaderStored, SizesFit, HistoryOk, FlushOk, Roomy, Past, Shape;
      if dictSize == 0 { dict, dictOff := dst, q; }
      if dict == dst && dictOff + dictSize == q {
        dictSize := dictSize + size;
        assert dst[dictOff..q + size] == dst[dictOff..q] + dst[q..q + size];
        return true;
      }
      if q - start + size >= KB64 {
        dict, dictOff, dictSize := dst, start, q - start + size;
        assert dst[start..q + size] == w + x;
        return true;
      }
      done := false;
    }

    /** LZ4F_updateDict when what lies in dst is to be kept in tmpOutBuffer. */
    method JoinTmp(dst: array<byte>, q: nat, size: nat, ghost x: seq<byte>)
      requires DictOk() && Shape() && dict != null && size < KB64 && q + size <= dst.Length && dst !in Internal()
      requires x == dst[q..q + size]
      requires KB64 + KB128 <= maxBufferSize && InFrame() && dStage != Init && info.linked
      modifies `dict, `dictOff, `dictSize, tmpOutBuffer
      ensures DictOk() && dict == tmpOutBuffer
      ensures Tail64(Dict()) == Tail64(old(Dict()) + x)
    {
      hide Tail64, SizesFit;
      ghost var h := Dict();
      var preserveSize := MakeRoom(size);
      TailKept(h, x, preserveSize);
      CopyAfter(tmpOutBuffer, preserveSize, dst, q, size, x);
      dict, dictOff, dictSize := tmpOutBuffer, 0, preserveSize + size;
      assert Dict() == tmpOutBuffer[..preserveSize + size];
    }

    /** Moves the end of the history to the beginning of tmpOutBuffer, so that size bytes fit behind it. */
    method MakeRoom(size: nat) returns (preserveSize: nat)
      requires DictOk() && Shape() && dict != null && size < KB64 && KB64 + KB128 <= maxBufferSize
      modifies tmpOutBuffer
      ensures preserveSize <= dictSize && preserveSize + size <= maxBufferSize
      ensures tmpOutBuffer[..preserveSize] == LastOf(old(Dict()), preserveSize)
      ensures preserveSize == dictSize || preserveSize + size >= KB64
    {
      hide SizesFit, LastOf, Dict;
      if dict != tmpOutBuffer {
        preserveSize := Min(KB64 - size, dictSize);
        if preserveSize > 0 { CopyTail(preserveSize, LastOf(Dict(), preserveSize)); }
      } else if dictSize + size > maxBufferSize {
        preserveSize := KB64 - size;
        SlideTail(preserveSize, LastOf(Dict(), preserveSize));
      } else {
        preserveSize := dictSize;
        AllOfDict();
      }
    }

    lemma AllOfDict()
      requires DictOk() && Shape() && dict == tmpOutBuffer
      ensures tmpOutBuffer[..dictSize] == LastOf(Dict(), dictSize)
    {
    }

    /** Moves the last n bytes of the history, which is in tmpOutBuffer, to the beginning. */
    method SlideTail(n: nat, ghost kept: seq<byte>)
      requires DictOk() && dict == tmpOutBuffer && 2 * n <= dictSize && kept == LastOf(Dict(), n)
      modifies tmpOutBuffer
      ensures tmpOutBuffer[..n] == kept
    {
      SliceOfSlice(tmpOutBuffer[..], 0, dictSize, dictSize - n, dictSize);
      Copy(tmpOutBuffer, 0, tmpOutBuffer, dictSize - n, n);
    }

    /** Copies the last n bytes of the history to the beginning of tmpOutBuffer. */
    method CopyTail(n: nat, ghost kept: seq<byte>)
      requires DictOk() && Shape() && 0 < n <= dictSize && n <= tmpOutBuffer.Length && dict != tmpOutBuffer
      requires kept == LastOf(Dict(), n)
      modifies tmpOutBuffer
      ensures tmpOutBuffer[..n] == kept
    {
      SliceOfSlice(dict[..], dictOff, dictSize, dictSize - n, dictSize);
      assert kept == Dict()[dictSize - n..dictSize];
      Copy(tmpOutBuffer, 0, dict, dictOff + dictSize - n, n);
    }

    /** Enough of the history stays. */
    lemma TailKept(h: seq<byte>, x: seq<byte>, k: nat)
      requires k <= |h| && (k == |h| || k + |x| >= KB64)
      ensures Tail64(LastOf(h, k) + x) == Tail64(h + x)
    {
    }

    /** LZ4F_updateDict for the bytes x just written to the output, which holds w before them. */
    method UpdateDict(dst: array<byte>, q: nat, size: nat, start: nat, ghost past: seq<byte>,
                      ghost w: seq<byte>, ghost x: seq<byte>)
      requires DictOk() && Shape() && start <= q && q + size <= dst.Length && dst !in Internal()
      requires KB64 + KB128 <= maxBufferSize && InFrame() && dStage != Init && info.linked
      requires w == dst[start..q] && x == dst[q..q + size]
      requires Tail64(Dict()) == Tail64(past) && EndsWith(past, w)
      modifies `dict, `dictOff, `dictSize, tmpOutBuffer
      ensures DictOk() && Behind(dst, q + size)
      ensures Tail64(Dict()) == Tail64(past + x)
    {
      hide Tail64, EndsWith, SizesFit;
      ghost var h := Dict();
      TailOfTail(h, x, past);
      EndsMore(past, w, x);
      var done := JoinDst(dst, q, size, start, w, x);
      if !done {
        JoinTmp(dst, q, size, x);
      } else if dictSize >= KB64 && Dict() == w + x {
        LongEnd(past + x, w + x);
      }
    }

    /** The history to decode a block with; a size beyond 1 GB does not fit the decoder's int. */
    method BlockHistory() returns (h: seq<byte>)
      requires DictOk()
      ensures Tail64(h) == Tail64(Dict())
    {
      if dict == null { return []; }
      if dictSize > GB1 { return dict[dictOff + dictSize - KB64..dictOff + dictSize]; }
      h := dict[dictOff..dictOff + dictSize];
    }

    // ----------------------------------------------------------------- blocks

    /** n bytes of an uncompressed block go to the output. */
    method CopyPart(src: seq<byte>, p0: nat, dst: array<byte>, start: nat, q0: nat, end: nat, n: nat,
                    ghost rest: seq<byte>)
      requires BetweenBlocks() && Buffers() && Latest(dst, start, q0, end) && dStage == CopyDirect
      requires n <= tmpInTarget && p0 + n <= |src| && q0 + n <= end && src[p0..] <= rest
      modifies `content, `xxh, `frameRemainingSize, `blockChecksum, `dict, `dictOff, `dictSize, tmpOutBuffer, dst
      ensures BetweenBlocks() && Buffers() && Latest(dst, start, q0 + n, end)
      ensures forall k :: 0 <= k < dst.Length && !(q0 <= k < q0 + n) ==> dst[k] == old(dst[k])
      ensures old(Behind(dst, q0)) ==> Behind(dst, q0 + n)
      ensures n <= |rest| && dst[q0..q0 + n] == rest[..n]
      ensures var fed := if info.blockChecksum then blockChecksum else [];
              old(Future(rest)) == Prepend(dst[q0..q0 + n], Run(Environment(), Progress(),
                if n == tmpInTarget then AfterRaw(info, fed) else InRaw(tmpInTarget - n, fed), rest[n..]))
    {
      hide Run, Tail64, GoodEnv, BetweenBlocks, SizesFit, EndsWith, Latest;
      RawFacts();
      Ahead(src, p0, n, rest);
      RawTaken(rest, n);
      Take(src, p0, dst, start, q0, end, n);
      assert src[p0..p0 + n] == rest[..n];
    }

    lemma RawFacts()
      requires BetweenBlocks()
      ensures frameRemainingSize < U64
    {
    }

    /** dstage_copyDirect: an uncompressed block goes straight to the output. */
    method DoCopyDirect(src: seq<byte>, p0: nat, dst: array<byte>, start: nat, q0: nat, end: nat, ghost rest: seq<byte>)
      returns (t: Turn, p: nat, q: nat)
      requires Valid() && dStage == CopyDirect && p0 <= |src| && src[p0..] <= rest && Io(dst, start, q0, end)
      modifies this, tmpOutBuffer, dst
      ensures p0 <= p <= |src| && q0 <= q <= end && unchanged(`tmpIn, `tmpOutBuffer, `predefined, `info)
      ensures forall k :: 0 <= k < dst.Length && !(q0 <= k < q) ==> dst[k] == old(dst[k])
      ensures t.More? || t.Stop?
      ensures Valid() && Io(dst, start, q, end) && Turned(old(Future(rest)), t, dst[q0..q], rest, p - p0)
      ensures InFrame() && dStage !in {Init, FlushOut}
      ensures old(Behind(dst, q0)) ==> Behind(dst, q)
      ensures t.More? ==> p > p0
      ensures t.Stop? ==> q == end || (p == |src| && Starved())
    {
      hide Run, Tail64, GoodEnv, Starved, Valid, Io, HistoryOk, FlushOk, SizesFit, EndsWith, HeaderStored, Roomy,
        Past, BetweenBlocks, Future, Prepend, Produce;
      Opened(dst, start, q0, end);
      BetweenFacts(dst, start, q0, end);
      var sizeToCopy := Min(tmpInTarget, Min(|src| - p0, end - q0));
      p, q := p0 + sizeToCopy, q0 + sizeToCopy;
      CopyPart(src, p0, dst, start, q0, end, sizeToCopy, rest);
      t := CopyNext(sizeToCopy);
      Settled(dst, start, q, end);
      PlainFuture(rest[sizeToCopy..]);
    }

    /** After n bytes of an uncompressed block. */
    method CopyNext(n: nat) returns (t: Turn)
      requires BetweenBlocks() && Buffers() && dStage == CopyDirect && n <= tmpInTarget
      modifies `tmpInSize, `dStage, `tmpInTarget
      ensures BetweenBlocks() && Buffers() && Buffered() == []
      ensures dStage in {CopyDirect, GetBlockChecksum, GetBlockHeader}
      ensures var fed := if info.blockChecksum then blockChecksum else [];
              CurrentPhase() == if n == old(tmpInTarget) then AfterRaw(info, fed) else InRaw(old(tmpInTarget) - n, fed)
      ensures if n == old(tmpInTarget) then t.More? else t.Stop? && t.hint == Hint() && Starved()
    {
      hide Run, Tail64, GoodEnv, Starved, SizesFit;
      if n == tmpInTarget {
        if info.blockChecksum {
          tmpInSize, dStage := 0, GetBlockChecksum;
        } else {
          dStage := GetBlockHeader;
        }
        t := More;
      } else {
        tmpInTarget := tmpInTarget - n;
        t := Stop(tmpInTarget + info.CrcSize() + BH_SIZE);
        StarvedHere();
      }
    }

    lemma StagesOfBlocks()
      requires Decoding() && dStage !in {Init, FlushOut}
      ensures dStage in {GetBlockHeader, StoreBlockHeader, CopyDirect, GetBlockChecksum, GetCBlock, StoreCBlock}
    {
      match dStage
      case GetFrameHeader =>
      case _ =>
    }

    lemma OpenedBlocks()
      requires Valid()
      requires dStage in {GetBlockHeader, StoreBlockHeader, CopyDirect, GetBlockChecksum, GetCBlock, StoreCBlock}
      ensures BetweenBlocks() && Buffers()
    {
      hide Tail64, GoodEnv, KeptFits, SizesFit;
    }

    lemma SettledBlocks()
      requires BetweenBlocks() && Buffers()
      ensures Valid()
    {
      hide Tail64, GoodEnv, KeptFits, SizesFit;
    }

    lemma Opened(dst: array<byte>, start: nat, q: nat, end: nat)
      requires Valid() && Io(dst, start, q, end)
      requires dStage in {GetBlockHeader, StoreBlockHeader, CopyDirect, GetBlockChecksum, GetCBlock, StoreCBlock}
      ensures BetweenBlocks() && Latest(dst, start, q, end) && Buffers()
    {
      hide Tail64, GoodEnv, KeptFits, SizesFit;
    }

    lemma Settled(dst: array<byte>, start: nat, q: nat, end: nat)
      requires BetweenBlocks() && Latest(dst, start, q, end) && Buffers()
      ensures Valid() && Io(dst, start, q, end)
    {
      hide Tail64, GoodEnv, KeptFits, SizesFit;
    }

    lemma RawTaken(rest: seq<byte>, k: nat)
      requires Buffers() && dStage == CopyDirect && k <= tmpInTarget && k <= |rest| && frameRemainingSize < U64
      ensures var fed := Feed(info, if info.blockChecksum then blockChecksum else [], rest[..k]);
              Future(rest) == Prepend(rest[..k], Run(Environment(), Produce(Progress(), rest[..k]),
                if k == tmpInTarget then AfterRaw(info, fed) else InRaw(tmpInTarget - k, fed), rest[k..]))
    {
      hide Run, SizesFit;
      PlainFuture(rest);
      RawStep(Environment(), Progress(), tmpInTarget, if info.blockChecksum then blockChecksum else [], rest, k);
    }

    /** Copies n bytes of x to the output. */
    method Put(x: seq<byte>, p0: nat, dst: array<byte>, start: nat, q0: nat, end: nat, n: nat)
      requires BetweenBlocks() && Latest(dst, start, q0, end) && q0 + n <= end && p0 + n <= |x|
      modifies dst
      ensures BetweenBlocks() && Latest(dst, start, q0, end)
      ensures dst[q0..q0 + n] == x[p0..p0 + n]
      ensures forall k :: 0 <= k < dst.Length && !(q0 <= k < q0 + n) ==> dst[k] == old(dst[k])
    {
      hide Tail64, GoodEnv, SizesFit, EndsWith;
      ghost var before := dst[..];
      CopyIn(dst, q0, x, p0, n);
      SliceKept(before, dst, start, q0, q0, q0 + n);
      if dict == dst { SliceKept(before, dst, dictOff, dictOff + dictSize, q0, q0 + n); }
    }

    /** Copies n bytes of an uncompressed block. */
    method Take(src: seq<byte>, p0: nat, dst: array<byte>, start: nat, q0: nat, end: nat, n: nat)
      requires BetweenBlocks() && Latest(dst, start, q0, end) && q0 + n <= end && p0 + n <= |src|
      modifies `content, `xxh, `frameRemainingSize, `blockChecksum, `dict, `dictOff, `dictSize, tmpOutBuffer, dst
      ensures BetweenBlocks() && Latest(dst, start, q0 + n, end)
      ensures Progress() == Produce(old(Progress()), src[p0..p0 + n]) && dst[q0..q0 + n] == src[p0..p0 + n]
      ensures forall k :: 0 <= k < dst.Length && !(q0 <= k < q0 + n) ==> dst[k] == old(dst[k])
      ensures old(Behind(dst, q0)) ==> Behind(dst, q0 + n)
      ensures blockChecksum == Feed(info, old(blockChecksum), src[p0..p0 + n])
    {
      hide Tail64, GoodEnv, SizesFit, BetweenBlocks, Latest, Produce;
      BetweenFacts(dst, start, q0, end);
      Put(src, p0, dst, start, q0, end, n);
      if info.blockChecksum { blockChecksum := blockChecksum + src[p0..p0 + n]; }
      Accept(dst, start, q0, q0 + n, end);
    }

    /** The bytes dst[q0..q) just written are content: feeds the checksum, counts them off
        the announced size and, for linked blocks, updates the history. */
    method Accept(dst: array<byte>, start: nat, q0: nat, q: nat, end: nat)
      requires BetweenBlocks() && Latest(dst, start, q0, end) && q0 <= q <= end
      modifies `content, `xxh, `frameRemainingSize, `dict, `dictOff, `dictSize, tmpOutBuffer
      ensures BetweenBlocks() && Latest(dst, start, q, end) && Progress() == Produce(old(Progress()), dst[q0..q])
      ensures old(Behind(dst, q0)) ==> Behind(dst, q)
    {
      hide Run, Tail64, GoodEnv, EndsWith, SizesFit;
      ghost var past, w := Past(), dst[start..q0];
      var x := dst[q0..q];
      Grown(predefined, content, w, x);
      assert dst[start..q] == w + x;
      Count(x);
      if info.linked { UpdateDict(dst, q0, q - q0, start, past, w, x); }
    }

    lemma Grown(pre: seq<byte>, c: seq<byte>, w: seq<byte>, x: seq<byte>)
      ensures (pre + c) + x == pre + (c + x)
      ensures EndsWith(c, w) ==> EndsWith(pre + c, w) && EndsWith(c + x, w + x)
    {
    }

    /** Feeds the content checksum and counts x off the announced size. */
    method Count(x: seq<byte>)
      requires frameRemainingSize < U64
      modifies `content, `xxh, `frameRemainingSize
      ensures Progress() == Produce(old(Progress()), x) && frameRemainingSize < U64
      ensures info.contentChecksum && old(xxh == content) ==> xxh == content
    {
      if info.contentChecksum { xxh := xxh + x; }
      if info.contentSize != 0 { frameRemainingSize := (frameRemainingSize - |x|) % U64; }
      content := content + x;
    }

    /** dstage_getBlockChecksum: the checksum of an uncompressed block. */
    method DoGetBlockChecksum(src: seq<byte>, p0: nat, ghost rest: seq<byte>) returns (t: Turn, p: nat)
      requires Valid() && dStage == GetBlockChecksum && p0 <= |src| && src[p0..] <= rest
      modifies `dStage, `tmpInSize, header
      ensures p0 <= p <= |src|
      ensures t.Failed? ==> old(Future(rest)).end == Refused(Kind(t.error)) && Sound()
      ensures !t.Failed? ==> Valid() && Turned(old(Future(rest)), t, [], rest, p - p0)
                             && dStage in {GetBlockChecksum, GetBlockHeader}
      ensures t.More? ==> p > p0
      ensures t.Stop? ==> p == |src| && Starved()
      ensures !t.Finished?
    {
      hide Run, Tail64, GoodEnv, KeptFits, Starved, ParseHeader, Valid, HistoryOk, FlushOk, SizesFit, Prepend, Past,
        Roomy, Dict, Sound;
      OpenedBlocks();
      PlainFuture(rest);
      ghost var b0 := Buffered();
      if |src| - p0 >= 4 && tmpInSize == 0 {
        p := p0 + 4;
        Ahead(src, p0, 4, rest);
        assert rest == src[p0..p] + rest[4..];
        t := CheckRaw(src[p0..p], rest[4..]);
      } else {
        var sizeToCopy := Min(4 - tmpInSize, |src| - p0);
        HeaderInput(src, p0, sizeToCopy, 0);
        p := p0 + sizeToCopy;
        Ahead(src, p0, sizeToCopy, rest);
        Moved(b0, rest, sizeToCopy, header[..tmpInSize + sizeToCopy]);
        tmpInSize := tmpInSize + sizeToCopy;
        if tmpInSize < 4 {
          t := Stop(1);
          StarvedHere();
          SettledBlocks();
          PlainFuture(rest[sizeToCopy..]);
        } else {
          t := CheckRaw(header[..4], rest[sizeToCopy..]);
        }
      }
    }

    method CheckRaw(crc: seq<byte>, ghost rest: seq<byte>) returns (t: Turn)
      requires BetweenBlocks() && dStage == GetBlockChecksum && info.blockChecksum && |crc| == 4
      modifies `dStage
      ensures t.Failed? ==> old(Run(Environment(), Progress(), AtRawChecksum(blockChecksum), crc + rest)).end
                            == Refused(Kind(t.error)) && Sound()
      ensures !t.Failed? ==>
                && t == More && Valid() && Buffers() && dStage == GetBlockHeader
                && old(Run(Environment(), Progress(), AtRawChecksum(blockChecksum), crc + rest)) == Future(rest)
                && Prepend([], Future(rest)) == Future(rest)
    {
      hide Run, Tail64, GoodEnv, Starved, SizesFit;
      RawChecksumOutcome(Environment(), Progress(), blockChecksum, crc, rest);
      if LE32(crc, 0) != hash(blockChecksum) { return Failed(BlockChecksumInvalid); }
      dStage := GetBlockHeader;
      t := More;
      PlainFuture(rest);
    }

    // ------------------------------------------------------- compressed blocks

    /** The history at hand decodes a block like the whole history would. */
    lemma SameDecoding(h: seq<byte>, block: seq<byte>)
      requires BetweenBlocks() && Tail64(h) == Tail64(Dict())
      ensures dec(h, block, info.MaxBlockSize()) == dec(History(Environment(), Progress()), block, info.MaxBlockSize())
      ensures dec(h, block, info.MaxBlockSize()).Some? ==>
                |dec(h, block, info.MaxBlockSize()).value| <= info.MaxBlockSize()
    {
      hide Tail64, SizesFit;
      var cap, g := info.MaxBlockSize(), History(Environment(), Progress());
      assert dec(h, block, cap) == dec(Tail64(h), block, cap);
      assert dec(g, block, cap) == dec(Tail64(g), block, cap);
    }

    /** The block decoder's output x, with room for cap bytes: what it leaves behind x is not known. */
    method PutBlock(x: seq<byte>, dst: array<byte>, start: nat, q0: nat, end: nat, cap: nat)
      requires BetweenBlocks() && Latest(dst, start, q0, end) && |x| <= cap <= end - q0
      modifies dst
      ensures BetweenBlocks() && Latest(dst, start, q0, end) && dst[q0..q0 + |x|] == x
      ensures forall k :: 0 <= k < dst.Length && !(q0 <= k < q0 + cap) ==> dst[k] == old(dst[k])
    {
      hide Tail64, GoodEnv, SizesFit, EndsWith;
      Put(x, 0, dst, start, q0, end, |x|);
      assert x[0..|x|] == x;
      ghost var before := dst[..];
      Spill(dst, q0 + |x|, q0 + cap);
      SliceKept(before, dst, start, q0, q0 + |x|, q0 + cap);
      SliceKept(before, dst, q0, q0 + |x|, q0 + |x|, q0 + cap);
      if dict == dst { SliceKept(before, dst, dictOff, dictOff + dictSize, q0 + |x|, q0 + cap); }
    }

    lemma BetweenFacts(dst: array<byte>, start: nat, q: nat, end: nat)
      requires BetweenBlocks() && Latest(dst, start, q, end)
      ensures Sound() && DictOk() && start <= q <= end <= dst.Length && dst != tmpOutBuffer
    {
      hide Tail64, GoodEnv, SizesFit, EndsWith;
    }

    method NextBlock(dst: array<byte>, start: nat, q: nat, end: nat)
      requires BetweenBlocks() && Latest(dst, start, q, end)
      modifies `dStage
      ensures BetweenBlocks() && Latest(dst, start, q, end) && dStage == GetBlockHeader
    {
      hide Tail64, GoodEnv, SizesFit, EndsWith;
      dStage := GetBlockHeader;
    }

    /** Decodes a block where its output is wanted. */
    method DecodeDirect(block: seq<byte>, dst: array<byte>, start: nat, q0: nat, end: nat)
      returns (error: Option<Error>, q: nat)
      requires BetweenBlocks() && Latest(dst, start, q0, end) && info.MaxBlockSize() <= end - q0
      requires dStage in {GetCBlock, StoreCBlock}
      modifies `content, `xxh, `frameRemainingSize, `dict, `dictOff, `dictSize, `dStage, tmpOutBuffer, dst
      ensures q0 <= q <= end && (error.None? && old(Behind(dst, q0)) ==> Behind(dst, q))
      ensures forall k :: 0 <= k < dst.Length && !(q0 <= k < end) ==> dst[k] == old(dst[k])
      ensures var x := old(dec(History(Environment(), Progress()), block, info.MaxBlockSize()));
              if error.Some? then error.value == Generic && x == None && Sound()
              else BetweenBlocks() && Latest(dst, start, q, end) && dStage == GetBlockHeader
                   && x == Some(dst[q0..q]) && Progress() == Produce(old(Progress()), dst[q0..q])
    {
      hide Tail64, GoodEnv, SizesFit, EndsWith, BetweenBlocks, Latest;
      BetweenFacts(dst, start, q0, end);
      var h := BlockHistory();
      SameDecoding(h, block);
      var decoded := dec(h, block, info.MaxBlockSize());
      if decoded.None? {
        Spill(dst, q0, q0 + info.MaxBlockSize());
        return Some(Generic), q0;
      }
      q := q0 + |decoded.value|;
      PutBlock(decoded.value, dst, start, q0, end, info.MaxBlockSize());
      Accept(dst, start, q0, q, end);
      NextBlock(dst, start, q, end);
      error := None;
    }

    /** Room for a block in tmpOutBuffer, behind the history if that is kept there. */
    method PlaceTmpOut()
      requires BetweenBlocks()
      modifies `tmpOut, `dictSize, tmpOutBuffer
      ensures BetweenBlocks() && tmpOut + info.MaxBlockSize() <= tmpOutBuffer.Length
      ensures Tail64(Dict()) == old(Tail64(Dict())) && dictSize <= old(dictSize)
      ensures info.linked ==> tmpOut == if dict == tmpOutBuffer then dictSize else Min(dictSize, KB64)
    {
      hide GoodEnv, Tail64, SizesFit;
      if info.linked {
        if dict == tmpOutBuffer {
          if dictSize > KB128 {
            ghost var h := Dict();
            SlideTail(KB64, LastOf(h, KB64));
            dictSize := KB64;
            ShortTail(h, KB64);
          }
          tmpOut := dictSize;
        } else {
          tmpOut := Min(dictSize, KB64);
        }
      }
    }

    /** A block decoded to tmpOut is kept together with enough of the history. */
    lemma KeptFirst(h: seq<byte>, x: seq<byte>, past: seq<byte>)
      requires Tail64(h) == Tail64(past)
      ensures KeptFits(h, x, 0, Min(|h|, KB64), past + x)
    {
      hide Tail64, SizesFit;
      var k := Keep(|x|, Min(|h|, KB64));
      assert h[|h| - k..|h| - 0] == h[|h| - k..];
      TailKept(h, x, k);
      TailOfTail(h, x, past);
    }

    /** The block decoder's output x in tmpOut, with room for a whole block. */
    method PutTmp(x: seq<byte>)
      requires |x| <= info.MaxBlockSize() && tmpOut + info.MaxBlockSize() <= tmpOutBuffer.Length
      modifies tmpOutBuffer
      ensures tmpOutBuffer[tmpOut..tmpOut + |x|] == x && tmpOutBuffer[..tmpOut] == old(tmpOutBuffer[..tmpOut])
    {
      CopyIn(tmpOutBuffer, tmpOut, x, 0, |x|);
      assert tmpOutBuffer[tmpOut..tmpOut + |x|] == x[0..|x|] == x;
      Spill(tmpOutBuffer, tmpOut + |x|, tmpOut + info.MaxBlockSize());
    }

    /** The history lies in front of tmpOut or elsewhere. */
    lemma DictPart(b: seq<byte>, h: seq<byte>)
      requires DictOk() && info.Valid() && b == tmpOutBuffer[..] && h == Dict()
      requires dict == tmpOutBuffer ==> dictSize <= tmpOut <= |b|
      ensures dict == tmpOutBuffer ==> h == b[..tmpOut][..dictSize]
    {
    }

    /** Stores a decoded block in tmpOut. */
    method StoreBlock(x: seq<byte>)
      requires BetweenBlocks() && |x| <= info.MaxBlockSize() && tmpOut + info.MaxBlockSize() <= tmpOutBuffer.Length
      requires info.linked ==> tmpOut == if dict == tmpOutBuffer then dictSize else Min(dictSize, KB64)
      modifies `content, `xxh, `frameRemainingSize, `dStage, `tmpOutSize, `tmpOutStart, tmpOutBuffer
      ensures Valid() && Buffers() && dStage == FlushOut && tmpOutStart == 0
      ensures Pending() == x && Progress() == Produce(old(Progress()), x)
      ensures content == old(content) + x
    {
      hide Tail64, GoodEnv, Valid, SizesFit, Buffers, EndsWith;
      ghost var h := Dict();
      DictPart(tmpOutBuffer[..], h);
      PutTmp(x);
      DictPart(tmpOutBuffer[..], Dict());
      assert Dict() == h;
      Pend(x);
    }

    /** What was put in tmpOut is content, and is to be handed out. */
    method Pend(x: seq<byte>)
      requires BetweenBlocks() && tmpOut + |x| <= tmpOutBuffer.Length && tmpOutBuffer[tmpOut..tmpOut + |x|] == x
      requires info.linked ==> tmpOut == if dict == tmpOutBuffer then dictSize else Min(dictSize, KB64)
      modifies `content, `xxh, `frameRemainingSize, `dStage, `tmpOutSize, `tmpOutStart
      ensures Valid() && Buffers() && dStage == FlushOut && tmpOutStart == 0
      ensures Pending() == x && Progress() == Produce(old(Progress()), x)
      ensures content == old(content) + x
    {
      hide Tail64, GoodEnv, Valid, SizesFit, Buffers, EndsWith, Dict;
      ghost var h, c := Dict(), content;
      Count(x);
      tmpOutSize, tmpOutStart, dStage := |x|, 0, FlushOut;
      Stored(h, c, x);
    }

    lemma Stored(h: seq<byte>, c: seq<byte>, x: seq<byte>)
      requires dStage == FlushOut && tmpOutSize == |x| && tmpOutStart == 0 && tmpOut + |x| <= tmpOutBuffer.Length
      requires GoodEnv(Env(dec, hash, [])) && Shape() && DictOk() && info.Valid() && Roomy()
      requires content == c + x && tmpOutBuffer[tmpOut..tmpOut + |x|] == x && Dict() == h && frameRemainingSize < U64
      requires if info.linked then Tail64(h) == Tail64(predefined + c) else h == predefined && tmpOut == 0
      requires info.contentChecksum ==> xxh == content
      requires info.linked ==> tmpOut == if dict == tmpOutBuffer then dictSize else Min(dictSize, KB64)
      ensures Valid() && Buffers() && Pending() == x
    {
      hide Tail64, GoodEnv, SizesFit;
      assert Pending() == Block() == x;
      assert Past() == (predefined + c) + x;
      if info.linked {
        TailOfTail(h, x, predefined + c);
        if dict != tmpOutBuffer { KeptFirst(h, x, predefined + c); }
      }
    }

    // ------------------------------------------------------------------ flush

    /** What a linked block in tmpOut tells of the history, whatever lies where. */
    lemma FlushView()
      requires Valid() && dStage == FlushOut && info.linked
      ensures var b := Block();
              && EndsWith(Past(), b) && |b| == tmpOutSize
              && Tail64(Dict() + b[tmpOutStart..]) == Tail64(Past())
              && (tmpOut + |b| < KB64 ==> |Past()| == tmpOut + |b|)
              && (dict != tmpOutBuffer ==> KeptFits(Dict(), b, tmpOutStart, tmpOut, Past()))
              && (dict == tmpOutBuffer && dictSize == 0 ==> KeptFits(Dict(), b, tmpOutStart, tmpOut, Past()))
    {
      hide GoodEnv, SizesFit;
      var b := Block();
      assert Pending() == b[tmpOutStart..];
      if dict == tmpOutBuffer && dictSize == 0 {
        assert [] + b == b && b[0..] == b;
      }
    }

    lemma OutputView(dst: array<byte>, start: nat, q: nat, end: nat)
      requires Valid() && dStage == FlushOut && info.linked && Io(dst, start, q, end)
      ensures tmpOutStart == 0 || start == q
      ensures EndsWith(Past(), if tmpOutStart == 0 then dst[start..q] + Block() else Block())
      ensures EndsWith(content, dst[start..q] + Block()[tmpOutStart..])
    {
      hide GoodEnv, Tail64, KeptFits, SizesFit, EndsWith, HistoryOk, FlushOk;
      var b, w, c := Block(), dst[start..q], content;
      assert Pending() == b[tmpOutStart..];
      FlushEnds();
      if tmpOutStart == 0 {
        assert b[0..] == b;
        EndsJoin(c, w, b);
        EndsBehind(predefined, c, w + b);
      } else {
        EndsBehind(predefined, c, b);
        EndsPart(c, b, tmpOutStart);
        assert w + b[tmpOutStart..] == b[tmpOutStart..];
      }
    }

    lemma FlushEnds()
      requires Valid() && dStage == FlushOut
      ensures EndsWith(content, Block())
    {
      hide GoodEnv, Tail64, KeptFits, SizesFit;
    }

    /** LZ4F_updateDict for the next bytes x of the block b in tmpOut, just written to the output,
        which holds w before them. */
    method UpdateDictFlush(dst: array<byte>, q: nat, size: nat, start: nat, end: nat, ghost b: seq<byte>,
                           ghost w: seq<byte>, ghost x: seq<byte>)
      requires Valid() && dStage == FlushOut && info.linked && Io(dst, start, q, end)
      requires size <= tmpOutSize - tmpOutStart && q + size <= end
      requires b == Block() && w == dst[start..q] && x == dst[q..q + size] == b[tmpOutStart..tmpOutStart + size]
      modifies `dict, `dictOff, `dictSize, tmpOutBuffer
      ensures Buffers() && DictOk() && Behind(dst, q + size)
      ensures Block() == b
      ensures Tail64(Dict() + b[tmpOutStart + size..]) == Tail64(Past())
      ensures if dict == tmpOutBuffer then dictSize == tmpOut + tmpOutStart + size
              else KeptFits(Dict(), b, tmpOutStart + size, tmpOut, Past())
    {
      hide Tail64, GoodEnv, KeptFits, HeaderStored, HistoryOk, FlushOk, EndsWith, SizesFit, Buffers, Block, Past;
      FlushView();
      OutputView(dst, start, q, end);
      var done := JoinFlush(dst, q, size, start, b, w, x);
      if !done { MoveKept(size, b); }
    }

    method JoinFlush(dst: array<byte>, q: nat, size: nat, start: nat, ghost b: seq<byte>,
                     ghost w: seq<byte>, ghost x: seq<byte>)
      returns (done: bool)
      requires Buffers() && DictOk() && dStage == FlushOut && dst !in Internal() && start <= q && q + size <= dst.Length
      requires tmpOutStart + size <= tmpOutSize
      requires b == Block() && w == dst[start..q] && x == dst[q..q + size] == b[tmpOutStart..tmpOutStart + size]
      requires EndsWith(Past(), if tmpOutStart == 0 then w + b else b) && (tmpOutStart == 0 || w == [])
      requires Tail64(Dict() + b[tmpOutStart..]) == Tail64(Past())
      requires tmpOut + |b| < KB64 ==> |Past()| == tmpOut + |b|
      requires dict != tmpOutBuffer || dictSize == 0 ==> KeptFits(Dict(), b, tmpOutStart, tmpOut, Past())
      modifies `dict, `dictOff, `dictSize
      ensures Buffers() && DictOk() && Block() == b && Past() == old(Past())
      ensures done ==> dict == dst && dictOff + dictSize == q + size
                       && Tail64(Dict() + b[tmpOutStart + size..]) == Tail64(Past())
                       && KeptFits(Dict(), b, tmpOutStart + size, tmpOut, Past())
      ensures !done ==> unchanged(this) && (old(HistoryOk() && FlushOk()) ==> HistoryOk() && FlushOk())
    {
      hide Tail64, KeptFits, HeaderStored, HistoryOk, FlushOk, EndsWith, SizesFit, Dict, Past, Buffers;
      ghost var d, s, past := Dict(), tmpOutStart, Past();
      ghost var joins := dictSize == 0 || (dict == dst && dictOff + dictSize == q);
      done := JoinDst(dst, q, size, start, w, x);
      if done { KeptJoined(d, w, x, b, s, size, tmpOut, past, joins); }
    }

    /** Makes the history and the block b in tmpOut, up to the next size bytes, the dictionary;
        what must be kept is moved in front of the block when it is elsewhere. */
    method MoveKept(size: nat, ghost b: seq<byte>)
      requires Buffers() && DictOk() && HistoryOk() && FlushOk() && dStage == FlushOut && info.linked
      requires size <= tmpOutSize - tmpOutStart && b == Block()
      modifies `dict, `dictOff, `dictSize, tmpOutBuffer
      ensures Buffers() && DictOk() && Block() == b
      ensures dict == tmpOutBuffer && dictSize == tmpOut + tmpOutStart + size
      ensures Tail64(Dict() + b[tmpOutStart + size..]) == Tail64(Past())
    {
      hide Tail64, HeaderStored, KeptFits, SizesFit;
      if dict == tmpOutBuffer { InFront(b); } else { CopyKept(b); }
      Adopt(size, b);
    }

    lemma InFront(b: seq<byte>)
      requires Buffers() && DictOk() && HistoryOk() && FlushOk() && dStage == FlushOut && info.linked
      requires dict == tmpOutBuffer && b == Block()
      ensures Tail64(tmpOutBuffer[..tmpOut] + b) == Tail64(Past())
    {
      hide Tail64, HeaderStored, SizesFit;
      Whole(tmpOutStart, b);
      assert Dict() + Pending() == tmpOutBuffer[..tmpOut + tmpOutStart] + b[tmpOutStart..];
    }

    method Adopt(size: nat, ghost b: seq<byte>)
      requires Buffers() && DictOk() && dStage == FlushOut && info.linked && size <= tmpOutSize - tmpOutStart
      requires b == Block() && Tail64(tmpOutBuffer[..tmpOut] + b) == Tail64(Past())
      modifies `dict, `dictOff, `dictSize
      ensures Buffers() && DictOk() && Block() == b
      ensures dict == tmpOutBuffer && dictSize == tmpOut + tmpOutStart + size
      ensures Tail64(Dict() + b[tmpOutStart + size..]) == Tail64(Past())
    {
      hide Tail64, HeaderStored, SizesFit;
      Whole(tmpOutStart + size, b);
      dict, dictOff, dictSize := tmpOutBuffer, 0, tmpOut + tmpOutStart + size;
    }

    method CopyKept(ghost b: seq<byte>)
      requires Buffers() && DictOk() && FlushOk() && dStage == FlushOut && info.linked && dict != tmpOutBuffer
      requires b == Block()
      modifies tmpOutBuffer
      ensures Block() == b
      ensures Tail64(tmpOutBuffer[..tmpOut] + b) == Tail64(Past())
    {
      hide Tail64, HeaderStored, EndsWith, SizesFit, FlushOk, KeptFits;
      var copySize := Keep(tmpOutSize, tmpOut);
      ghost var kept := KeptView(b);
      if copySize > 0 {
        assert Block() == tmpOutBuffer[tmpOut..][..tmpOutSize];
        CopyBefore(tmpOutBuffer, tmpOut, dict, dictOff + dictSize - tmpOutStart - copySize, copySize, kept);
        assert Block() == tmpOutBuffer[tmpOut..][..tmpOutSize];
      }
    }

    lemma KeptView(b: seq<byte>) returns (kept: seq<byte>)
      requires Buffers() && DictOk() && FlushOk() && dStage == FlushOut && info.linked && dict != tmpOutBuffer
      requires b == Block()
      ensures var k := Keep(tmpOutSize, tmpOut);
              && Tail64(tmpOutBuffer[..tmpOut - k] + kept + b) == Tail64(Past())
              && (k == 0 ==> tmpOutBuffer[..tmpOut - k] + kept == tmpOutBuffer[..tmpOut])
              && (k > 0 ==> dict != null && tmpOutStart + k <= dictSize
                            && kept == dict[dictOff + dictSize - tmpOutStart - k..dictOff + dictSize - tmpOutStart])
    {
      hide Tail64, HeaderStored, EndsWith, SizesFit;
      var d, k := Dict(), Keep(tmpOutSize, tmpOut);
      kept := if k == 0 then [] else d[|d| - tmpOutStart - k..|d| - tmpOutStart];
      KeptMoved(tmpOutBuffer[..tmpOut - k], kept, b, Past());
      if k > 0 {
        SliceOfSlice(dict[..], dictOff, dictSize, dictSize - tmpOutStart - k, dictSize - tmpOutStart);
      }
    }

    lemma Whole(s: nat, b: seq<byte>)
      requires Buffers() && dStage == FlushOut && s <= tmpOutSize && b == Block()
      ensures tmpOutBuffer[..tmpOut + s] + b[s..] == tmpOutBuffer[..tmpOut] + b
    {
    }

    /** What is known once size bytes of the block b in tmpOut have been copied to the output
        and the dictionary is up to date. */
    ghost predicate Handing(size: nat, b: seq<byte>)
      reads this, tmpIn, tmpOutBuffer, header, dict
    {
      && GoodEnv(Env(dec, hash, [])) && Buffers() && DictOk() && dStage == FlushOut && b == Block()
      && size <= tmpOutSize - tmpOutStart && EndsWith(content, b) && frameRemainingSize < U64
      && (info.contentChecksum ==> xxh == content)
      && (if info.linked then
            && Tail64(Dict() + b[tmpOutStart + size..]) == Tail64(Past())
            && (if dict == tmpOutBuffer then dictSize == tmpOut + tmpOutStart + size
                else KeptFits(Dict(), b, tmpOutStart + size, tmpOut, Past()))
          else Dict() == predefined)
    }

    method HandOut(dst: array<byte>, start: nat, q: nat, end: nat, size: nat, ghost b: seq<byte>)
      requires Valid() && dStage == FlushOut && Io(dst, start, q, end) && b == Block()
      requires size <= tmpOutSize - tmpOutStart && q + size <= end
      modifies `dict, `dictOff, `dictSize, tmpOutBuffer, dst
      ensures forall k :: 0 <= k < dst.Length && !(q <= k < q + size) ==> dst[k] == old(dst[k])
      ensures dst[q..q + size] == b[tmpOutStart..tmpOutStart + size]
      ensures old(Behind(dst, q)) ==> Behind(dst, q + size)
      ensures Handing(size, b) && (dict == dst ==> dictOff + dictSize <= q + size || end <= dictOff)
    {
      hide Tail64, GoodEnv, KeptFits, HeaderStored, Valid, Io, SizesFit, Fits, Shape, DictOk, Dict;
      FlushFacts(dst, start, q, end, b);
      ghost var x := b[tmpOutStart..tmpOutStart + size];
      SliceOfSlice(tmpOutBuffer[..], tmpOut, tmpOutSize, tmpOutStart, tmpOutStart + size);
      Give(dst, start, q, end, size, b, x);
      FlushFacts(dst, start, q, end, b);
      if info.linked { UpdateDictFlush(dst, q, size, start, end, b, dst[start..q], dst[q..q + size]); }
    }

    lemma FlushFacts(dst: array<byte>, start: nat, q: nat, end: nat, b: seq<byte>)
      requires Valid() && dStage == FlushOut && Io(dst, start, q, end) && b == Block()
      ensures GoodEnv(Env(dec, hash, [])) && frameRemainingSize < U64 && EndsWith(content, b)
      ensures (info.contentChecksum ==> xxh == content) && (!info.linked ==> Dict() == predefined)
      ensures Buffers() && DictOk() && start <= q <= end <= dst.Length && dst !in Internal() && |b| == tmpOutSize
      ensures dict == dst ==> dictOff + dictSize <= q || end <= dictOff
    {
      hide GoodEnv, Tail64, KeptFits, SizesFit;
    }

    /** Writing elsewhere than where the dictionary lies keeps everything. */
    twostate lemma DictStays()
      requires old(Valid()) && unchanged(this) && unchanged(tmpIn, tmpOutBuffer, header)
      requires DictOk() && Dict() == old(Dict())
      ensures Valid() && Buffers()
    {
      hide Tail64, GoodEnv, KeptFits, HeaderStored, EndsWith, SizesFit;
    }

    method Give(dst: array<byte>, start: nat, q: nat, end: nat, size: nat, ghost b: seq<byte>, ghost x: seq<byte>)
      requires Valid() && dStage == FlushOut && Io(dst, start, q, end) && Buffers() && b == Block()
      requires start <= q && q + size <= end <= dst.Length && dst !in Internal()
      requires size <= tmpOutSize - tmpOutStart
      requires x == tmpOutBuffer[tmpOut + tmpOutStart..tmpOut + tmpOutStart + size]
      modifies dst
      ensures forall k :: 0 <= k < dst.Length && !(q <= k < q + size) ==> dst[k] == old(dst[k])
      ensures Valid() && Buffers() && DictOk() && Io(dst, start, q, end) && b == Block() && dst[q..q + size] == x
    {
      hide Tail64, GoodEnv, KeptFits, HeaderStored, HistoryOk, FlushOk, EndsWith, SizesFit;
      ghost var before := dst[..];
      Copy(dst, q, tmpOutBuffer, tmpOut + tmpOutStart, size);
      SliceKept(before, dst, start, q, q, q + size);
      if dict == dst { SliceKept(before, dst, dictOff, dictOff + dictSize, q, q + size); }
      DictStays();
    }

    method FlushNext(size: nat, ghost b: seq<byte>) returns (t: Turn)
      requires Handing(size, b)
      modifies `tmpOutStart, `dStage
      ensures Valid() && Buffers() && DictOk() && Pending() == b[old(tmpOutStart) + size..]
      ensures if old(tmpOutStart) + size == tmpOutSize then t == More && dStage == GetBlockHeader
              else t == Stop(BH_SIZE) && dStage == FlushOut
    {
      hide Tail64, GoodEnv, KeptFits, HeaderStored, SizesFit, Valid, HistoryOk, FlushOk, EndsWith;
      tmpOutStart := tmpOutStart + size;
      FlushTail(b);
      if tmpOutStart == tmpOutSize {
        dStage := GetBlockHeader;
        t := More;
        SettledBlocks();
      } else {
        t := Stop(BH_SIZE);
      }
    }

    lemma FlushTail(b: seq<byte>)
      requires Handing(0, b)
      ensures Valid() && Pending() == b[tmpOutStart..]
      ensures tmpOutStart == tmpOutSize ==>
                && b[tmpOutStart..] == []
                && if info.linked then Tail64(Dict()) == Tail64(Past()) else Dict() == predefined
    {
      hide Tail64, GoodEnv, KeptFits, HeaderStored, SizesFit, Past;
      assert Pending() == b[tmpOutStart..];
      if tmpOutStart == tmpOutSize { assert b[tmpOutStart..] == [] && Dict() + [] == Dict(); }
    }

    /** In the flush stage and before the next block header the future is what is pending and
        the blocks to come. */
    lemma BlocksAhead(rest: seq<byte>)
      requires Buffers() && dStage in {FlushOut, GetBlockHeader}
      ensures Future(rest) == Prepend(Pending(), Run(Environment(), Progress(), AtBlock, rest))
    {
      hide Run, SizesFit;
      assert [] + rest == rest;
    }

    method FlushSome(dst: array<byte>, start: nat, q0: nat, end: nat, ghost b: seq<byte>) returns (t: Turn, q: nat)
      requires Valid() && dStage == FlushOut && Io(dst, start, q0, end) && Buffers() && b == Block()
      requires start <= q0 <= end <= dst.Length
      modifies `dict, `dictOff, `dictSize, `tmpOutStart, `dStage, tmpOutBuffer, dst
      ensures q0 <= q <= end && q - q0 <= tmpOutSize - old(tmpOutStart)
      ensures forall k :: 0 <= k < dst.Length && !(q0 <= k < q) ==> dst[k] == old(dst[k])
      ensures Valid() && Buffers() && DictOk()
      ensures var s := old(tmpOutStart);
              |b| == tmpOutSize && dst[q0..q] == b[s..s + q - q0] && Pending() == b[s + q - q0..]
      ensures old(Behind(dst, q0)) ==> Behind(dst, q)
      ensures dst !in Internal() && (dict == dst ==> dictOff + dictSize <= q || end <= dictOff)
      ensures if t == More then dStage == GetBlockHeader && q - q0 == tmpOutSize - old(tmpOutStart)
              else t == Stop(BH_SIZE) && q == end && dStage == FlushOut
    {
      hide Tail64, GoodEnv, KeptFits, HeaderStored, Valid, HistoryOk, FlushOk, Io, EndsWith, SizesFit, Past, Block,
        Roomy;
      FlushFacts(dst, start, q0, end, b);
      var sizeToCopy := Min(tmpOutSize - tmpOutStart, end - q0);
      q := q0 + sizeToCopy;
      HandOut(dst, start, q0, end, sizeToCopy, b);
      t := FlushNext(sizeToCopy, b);
    }

    method FlushWithin(dst: array<byte>, start: nat, q0: nat, end: nat, ghost b: seq<byte>) returns (t: Turn, q: nat)
      requires Valid() && dStage == FlushOut && Io(dst, start, q0, end) && Buffers() && b == Block()
      requires start <= q0 <= end <= dst.Length
      modifies `dict, `dictOff, `dictSize, `tmpOutStart, `dStage, tmpOutBuffer, dst
      ensures q0 <= q <= end && q - q0 <= tmpOutSize - old(tmpOutStart)
      ensures forall k :: 0 <= k < dst.Length && !(q0 <= k < q) ==> dst[k] == old(dst[k])
      ensures Valid() && Buffers() && (old(Behind(dst, q0)) ==> Behind(dst, q))
      ensures |b| == tmpOutSize && b[old(tmpOutStart)..] == dst[q0..q] + Pending()
      ensures if t == More then dStage == GetBlockHeader && Io(dst, start, q, end)
              else t == Stop(BH_SIZE) && q == end && dStage == FlushOut
    {
      hide Tail64, GoodEnv, KeptFits, HeaderStored, Valid, HistoryOk, FlushOk, Io, EndsWith, Pending, Block, SizesFit;
      ghost var s, w := tmpOutStart, dst[start..q0];
      if info.linked { OutputView(dst, start, q0, end); }
      t, q := FlushSome(dst, start, q0, end, b);
      assert b[s..] == dst[q0..q] + b[s + q - q0..];
      if t == More {
        assert b[s..s + q - q0] == b[s..] && dst[start..q0] == w;
        Flushed(dst, start, q0, q, end, b[s..], w);
      }
    }

    /** dstage_flushOut: hands out the block in tmpOut, as far as there is room. */
    method DoFlushOut(dst: array<byte>, start: nat, q0: nat, end: nat, ghost rest: seq<byte>) returns (t: Turn, q: nat)
      requires Valid() && dStage == FlushOut && Io(dst, start, q0, end) && start <= q0 <= end <= dst.Length
      modifies `dict, `dictOff, `dictSize, `tmpOutStart, `dStage, tmpOutBuffer, dst
      ensures q0 <= q <= end && (old(Behind(dst, q0)) ==> Behind(dst, q))
      ensures forall k :: 0 <= k < dst.Length && !(q0 <= k < q) ==> dst[k] == old(dst[k])
      ensures Valid() && old(Future(rest)) == Prepend(dst[q0..q], Future(rest))
      ensures if t == More then dStage == GetBlockHeader && Io(dst, start, q, end)
              else t == Stop(BH_SIZE) && q == end && dStage == FlushOut
    {
      hide Tail64, GoodEnv, KeptFits, HeaderStored, Run, HistoryOk, FlushOk, Io, EndsWith, SizesFit;
      ghost var b, s := Block(), tmpOutStart;
      BlocksAhead(rest);
      assert Pending() == b[s..];
      ghost var later := Run(Environment(), Progress(), AtBlock, rest);
      t, q := FlushWithin(dst, start, q0, end, b);
      assert Environment() == old(Environment()) && Progress() == old(Progress());
      BlocksAhead(rest);
      PrependTwice(dst[q0..q], Pending(), later);
    }

    lemma Flushed(dst: array<byte>, start: nat, q0: nat, q: nat, end: nat, x: seq<byte>, w: seq<byte>)
      requires Buffers() && DictOk() && dStage == GetBlockHeader && start <= q0 <= q <= end <= dst.Length
      requires dst !in Internal() && (dict == dst ==> dictOff + dictSize <= q || end <= dictOff)
      requires dst[start..q0] == w && dst[q0..q] == x && (info.linked ==> EndsWith(content, w + x))
      ensures Io(dst, start, q, end)
    {
      hide HeaderStored, SizesFit;
      assert dst[start..q] == w + x;
      assert content[..|content| - 0] == content;
    }

    lemma DictIsOk()
      requires Valid()
      ensures DictOk()
    {
      hide Tail64, GoodEnv, KeptFits, SizesFit, HeaderStored;
    }

    lemma IoPending(dst: array<byte>, start: nat, q: nat, end: nat, c: seq<byte>)
      requires Buffers() && DictOk() && dStage == FlushOut && tmpOutStart == 0
      requires start <= q <= end <= dst.Length && dst !in Internal()
      requires dict == dst ==> dictOff + dictSize <= q || end <= dictOff
      requires |Pending()| <= |content| && content[..|content| - |Pending()|] == c
      requires info.linked ==> EndsWith(c, dst[start..q])
      ensures Io(dst, start, q, end)
    {
      hide EndsWith, SizesFit, HeaderStored;
    }

    lemma ContentGrows(c: seq<byte>, x: seq<byte>)
      requires content == c + x
      ensures content[..|content| - |x|] == c
    {
    }

    /** Decodes a block to tmpOut: there is not enough room where its output is wanted. */
    method DecodeToTmp(block: seq<byte>, dst: array<byte>, start: nat, q0: nat, end: nat) returns (error: Option<Error>)
      requires BetweenBlocks() && Latest(dst, start, q0, end)
      modifies `content, `xxh, `frameRemainingSize, `dictSize, `dStage, `tmpOut, `tmpOutSize, `tmpOutStart, tmpOutBuffer
      ensures dictSize <= old(dictSize)
      ensures var x := old(dec(History(Environment(), Progress()), block, info.MaxBlockSize()));
              if error.Some? then error.value == DecompressionFailed && x == None && Sound()
              else Valid() && Buffers() && Io(dst, start, q0, end) && dStage == FlushOut
                   && x == Some(Pending()) && Progress() == Produce(old(Progress()), Pending())
    {
      hide Tail64, GoodEnv, Valid, SizesFit, Buffers, Past, Io, BetweenBlocks, DictOk, Dict;
      BetweenFacts(dst, start, q0, end);
      ghost var w := dst[start..q0];
      PlaceTmpOut();
      BetweenFacts(dst, start, q0, end);
      var h := BlockHistory();
      SameDecoding(h, block);
      var decoded := dec(h, block, info.MaxBlockSize());
      if decoded.None? {
        Spill(tmpOutBuffer, tmpOut, tmpOut + info.MaxBlockSize());
        return Some(DecompressionFailed);
      }
      ghost var c := content;
      StoreBlock(decoded.value);
      assert content[..|content| - |Pending()|] == c by { ContentGrows(c, decoded.value); }
      assert dst[start..q0] == w;
      DictIsOk();
      IoPending(dst, start, q0, end, c);
      error := None;
    }

    method DecodeData(data: seq<byte>, dst: array<byte>, start: nat, q0: nat, end: nat, ghost rest: seq<byte>)
      returns (t: Turn, q: nat)
      requires BetweenBlocks() && Latest(dst, start, q0, end) && dStage in {GetCBlock, StoreCBlock}
      modifies `content, `xxh, `frameRemainingSize, `dict, `dictOff, `dictSize, `dStage, `tmpOut, `tmpOutSize,
               `tmpOutStart, tmpOutBuffer, dst
      ensures q0 <= q <= end
      ensures forall k :: 0 <= k < dst.Length && !(q0 <= k < end) ==> dst[k] == old(dst[k])
      ensures !t.Finished? && (!t.Failed? && old(Behind(dst, q0)) ==> Behind(dst, q))
      ensures var x := old(dec(History(Environment(), Progress()), data, info.MaxBlockSize()));
              if t.Failed? then x == None && Kind(t.error) == DecompressionFailed && Sound()
              else && Valid() && x.Some?
                   && old(Prepend(x.value, Run(Environment(), Produce(Progress(), x.value), AtBlock, rest)))
                      == Prepend(dst[q0..q], Future(rest))
                   && if t == More then dStage == GetBlockHeader && Io(dst, start, q, end)
                      else t == Stop(BH_SIZE) && q == end && dStage == FlushOut
    {
      hide Run, Tail64, GoodEnv, Valid, Io, HeaderStored, SizesFit, Past, Dict, Progress, Prepend;
      q := q0;
      if end - q0 >= info.MaxBlockSize() {
        var error;
        error, q := DecodeDirect(data, dst, start, q0, end);
        if error.Some? { return Failed(error.value), q; }
        t := More;
        Settled(dst, start, q, end);
        PlainFuture(rest);
      } else {
        var error := DecodeToTmp(data, dst, start, q0, end);
        if error.Some? { return Failed(error.value), q; }
        BlocksAhead(rest);
        t, q := DoFlushOut(dst, start, q0, end, rest);
      }
    }

    method LessChecksum(dst: array<byte>, start: nat, q: nat, end: nat)
      requires BetweenBlocks() && Latest(dst, start, q, end) && tmpInTarget >= 4
      modifies `tmpInTarget
      ensures tmpInTarget == old(tmpInTarget) - 4 && BetweenBlocks() && Latest(dst, start, q, end) && Sound()
    {
      hide Tail64, GoodEnv, SizesFit, EndsWith;
      tmpInTarget := tmpInTarget - 4;
    }

    /** A whole block is at hand: checks its checksum and decodes it. */
    method DecodeBlock(block: seq<byte>, dst: array<byte>, start: nat, q0: nat, end: nat, ghost rest: seq<byte>)
      returns (t: Turn, q: nat)
      requires BetweenBlocks() && Latest(dst, start, q0, end) && dStage in {GetCBlock, StoreCBlock}
      requires info.CrcSize() < tmpInTarget == |block|
      modifies this, tmpOutBuffer, dst
      ensures q0 <= q <= end && unchanged(`tmpIn, `tmpOutBuffer, `predefined, `info)
      ensures forall k :: 0 <= k < dst.Length && !(q0 <= k < end) ==> dst[k] == old(dst[k])
      ensures !t.Finished? && (!t.Failed? && old(Behind(dst, q0)) ==> Behind(dst, q))
      ensures var before := old(Run(Environment(), Progress(), AtCBlock(tmpInTarget - info.CrcSize()), block + rest));
              if t.Failed? then before.end == Refused(Kind(t.error)) && Sound()
              else Valid() && before == Prepend(dst[q0..q], Future(rest))
                   && if t == More then dStage == GetBlockHeader && Io(dst, start, q, end)
                      else t == Stop(BH_SIZE) && q == end && dStage == FlushOut
    {
      hide Run, Tail64, GoodEnv, Valid, Io, HeaderStored, SizesFit, BetweenBlocks, Latest, Sound, Behind, Produce;
      CBlockOutcome(Environment(), Progress(), tmpInTarget - info.CrcSize(), block, rest);
      BetweenFacts(dst, start, q0, end);
      q := q0;
      if info.blockChecksum {
        LessChecksum(dst, start, q0, end);
        if LE32(block, tmpInTarget) != hash(block[..tmpInTarget]) { return Failed(BlockChecksumInvalid), q; }
      }
      t, q := DecodeData(block[..tmpInTarget], dst, start, q0, end, rest);
    }

    /** dstage_getCBlock: a block that is wholly in the input is decoded from there. */
    method DoGetCBlock(src: seq<byte>, p0: nat, dst: array<byte>, start: nat, q0: nat, end: nat, ghost rest: seq<byte>)
      returns (t: Turn, p: nat, q: nat)
      requires Valid() && dStage == GetCBlock && p0 <= |src| && src[p0..] <= rest && Io(dst, start, q0, end)
      modifies this, tmpOutBuffer, dst
      ensures p0 <= p <= |src| && q0 <= q <= end && unchanged(`tmpIn, `tmpOutBuffer, `predefined, `info)
      ensures forall k :: 0 <= k < dst.Length && !(q0 <= k < end) ==> dst[k] == old(dst[k])
      ensures !t.Finished? && (!t.Failed? && old(Behind(dst, q0)) ==> Behind(dst, q))
      ensures t.Failed? ==> old(Future(rest)).end == Refused(Kind(t.error)) && Sound()
      ensures !t.Failed? ==> Valid() && Turned(old(Future(rest)), t, dst[q0..q], rest, p - p0)
                             && dStage in {StoreCBlock, GetBlockHeader, FlushOut}
      ensures t.More? ==> Io(dst, start, q, end) && dStage != FlushOut && (p > p0 || dStage == StoreCBlock)
      ensures t.Stop? ==> q == end
    {
      hide Run, Tail64, GoodEnv, Valid, Io, HeaderStored, SizesFit, Turned, Dict, Roomy, Progress, Environment, Sound;
      Opened(dst, start, q0, end);
      PlainFuture(rest);
      ghost var before := Future(rest);
      p, q := p0, q0;
      if |src| - p0 < tmpInTarget {
        tmpInSize, dStage := 0, StoreCBlock;
        t := More;
        Settled(dst, start, q, end);
        PlainFuture(rest);
        assert dst[q0..q] == [];
        NothingUsed(before, t, dst[q0..q], rest);
      } else {
        p := p0 + tmpInTarget;
        Ahead(src, p0, tmpInTarget, rest);
        assert rest == src[p0..p] + rest[p - p0..];
        t, q := DecodeBlock(src[p0..p], dst, start, q0, end, rest[p - p0..]);
        if !t.Failed? {
          BuffersOk();
          FutureKept(before, t, dst[q0..q], rest, p - p0);
        }
      }
    }

    /** dstage_storeCBlock: a block is collected in tmpIn. */
    method DoStoreCBlock(src: seq<byte>, p0: nat, dst: array<byte>, start: nat, q0: nat, end: nat,
                         ghost rest: seq<byte>)
      returns (t: Turn, p: nat, q: nat)
      requires Valid() && dStage == StoreCBlock && p0 <= |src| && src[p0..] <= rest && Io(dst, start, q0, end)
      modifies this, tmpIn, tmpOutBuffer, dst
      ensures p0 <= p <= |src| && q0 <= q <= end && unchanged(`tmpIn, `tmpOutBuffer, `predefined, `info)
      ensures forall k :: 0 <= k < dst.Length && !(q0 <= k < end) ==> dst[k] == old(dst[k])
      ensures !t.Finished? && (!t.Failed? && old(Behind(dst, q0)) ==> Behind(dst, q))
      ensures t.Failed? ==> old(Future(rest)).end == Refused(Kind(t.error)) && Sound()
      ensures !t.Failed? ==> Valid() && Turned(old(Future(rest)), t, dst[q0..q], rest, p - p0)
                             && dStage in {StoreCBlock, GetBlockHeader, FlushOut}
      ensures t.More? ==> Io(dst, start, q, end) && dStage == GetBlockHeader && p > p0
      ensures t.Stop? ==> q == end || (p == |src| && Starved())
    {
      hide Run, Tail64, GoodEnv, Valid, Io, HeaderStored, Starved, SizesFit, Environment, Shape, Past, Future, Sound;
      Opened(dst, start, q0, end);
      PlainFuture(rest);
      ghost var b0 := Buffered();
      var sizeToCopy := Min(tmpInTarget - tmpInSize, |src| - p0);
      StoreInput(src, p0, sizeToCopy);
      p, q := p0 + sizeToCopy, q0;
      Ahead(src, p0, sizeToCopy, rest);
      Moved(b0, rest, sizeToCopy, tmpIn[..tmpInSize]);
      if tmpInSize < tmpInTarget {
        t := Stop(tmpInTarget - tmpInSize + info.CrcSize() + BH_SIZE);
        Settled(dst, start, q, end);
        StarvedHere();
        PlainFuture(rest[sizeToCopy..]);
      } else {
        t, q := DecodeBlock(tmpIn[..tmpInTarget], dst, start, q0, end, rest[sizeToCopy..]);
      }
    }

    /** Stores n bytes of the input behind those in tmpIn. */
    method StoreInput(src: seq<byte>, p0: nat, n: nat)
      requires BetweenBlocks() && Shape()
      requires p0 + n <= |src| && tmpInSize + n <= tmpIn.Length
      modifies `tmpInSize, tmpIn
      ensures tmpInSize == old(tmpInSize) + n && tmpIn[..tmpInSize] == old(tmpIn[..tmpInSize]) + src[p0..p0 + n]
      ensures BetweenBlocks()
    {
      hide Tail64, GoodEnv, SizesFit;
      ghost var b := tmpIn[..tmpInSize];
      CopyIn(tmpIn, tmpInSize, src, p0, n);
      tmpInSize := tmpInSize + n;
      assert tmpIn[..tmpInSize - n] == b;
    }

    // -------------------------------------------------------- end of a frame

    /** dstage_getSuffix, falling through to dstage_storeSuffix. */
    method DoGetSuffix(src: seq<byte>, p0: nat, ghost rest: seq<byte>) returns (t: Turn, p: nat)
      requires Valid() && dStage == GetSuffix && p0 <= |src| && src[p0..] <= rest
      modifies this, tmpIn
      ensures p0 <= p <= |src| && unchanged(`tmpIn, `tmpOutBuffer)
      ensures t.Failed? ==> old(Future(rest)).end == Refused(Kind(t.error)) && Sound()
      ensures !t.Failed? ==> Valid() && Turned(old(Future(rest)), t, [], rest, p - p0)
      ensures t.Stop? ==> p == |src| && dStage == StoreSuffix && Starved()
                          && unchanged(`dict, `dictOff, `dictSize, `predefined)
      ensures !t.More?
    {
      hide Run, Tail64, GoodEnv, KeptFits, Starved, HeaderStored, SizesFit, Valid, HistoryOk, FlushOk, Sound, Turned,
        Roomy, Environment, Shape;
      OpenedSuffix();
      ghost var before := Future(rest);
      PlainFuture(rest);
      EndOutcome(Environment(), Progress(), rest);
      p := p0;
      if frameRemainingSize != 0 { return Failed(FrameSizeWrong), p; }
      if !info.contentChecksum {
        Reset();
        NothingUsed(before, Finished, [], rest);
        return Finished, p;
      }
      if |src| - p0 >= 4 {
        p := p0 + 4;
        Ahead(src, p0, 4, rest);
        assert rest == src[p0..p] + rest[4..];
        t := CheckSuffix(src[p0..p], rest[4..]);
        if t.Finished? {
          BuffersOk();
          FutureKept(before, t, [], rest, 4);
        }
      } else {
        tmpInSize, dStage := 0, StoreSuffix;
        SettledSuffix();
        PlainFuture(rest);
        t, p := DoStoreSuffix(src, p0, rest);
      }
    }

    /** dstage_storeSuffix. */
    method DoStoreSuffix(src: seq<byte>, p0: nat, ghost rest: seq<byte>) returns (t: Turn, p: nat)
      requires Valid() && dStage == StoreSuffix && p0 <= |src| && src[p0..] <= rest
      modifies this, tmpIn
      ensures p0 <= p <= |src| && unchanged(`tmpIn, `tmpOutBuffer)
      ensures t.Failed? ==> old(Future(rest)).end == Refused(Kind(t.error)) && Sound()
      ensures !t.Failed? ==> Valid() && Turned(old(Future(rest)), t, [], rest, p - p0)
      ensures t.Stop? ==> p == |src| && dStage == StoreSuffix && Starved()
                          && unchanged(`dict, `dictOff, `dictSize, `predefined)
      ensures !t.More?
    {
      hide Run, Tail64, GoodEnv, Starved, HeaderStored, SizesFit, Valid, HistoryOk, FlushOk;
      OpenedSuffix();
      PlainFuture(rest);
      ghost var b0 := Buffered();
      var sizeToCopy := Min(4 - tmpInSize, |src| - p0);
      CopyIn(tmpIn, tmpInSize, src, p0, sizeToCopy);
      p := p0 + sizeToCopy;
      Ahead(src, p0, sizeToCopy, rest);
      Moved(b0, rest, sizeToCopy, tmpIn[..tmpInSize + sizeToCopy]);
      tmpInSize := tmpInSize + sizeToCopy;
      if tmpInSize < 4 {
        t := Stop(4 - tmpInSize);
        SettledSuffix();
        StarvedHere();
        PlainFuture(rest[sizeToCopy..]);
      } else {
        t := CheckSuffix(tmpIn[..4], rest[sizeToCopy..]);
      }
    }

    /** The content checksum is at hand. */
    method CheckSuffix(crc: seq<byte>, ghost rest: seq<byte>) returns (t: Turn)
      requires GoodEnv(Env(dec, hash, [])) && Shape() && frameRemainingSize == 0 && |crc| == 4
      requires info.contentChecksum && xxh == content
      modifies this
      ensures unchanged(`tmpIn, `tmpOutBuffer)
      ensures var before := old(Run(Environment(), Progress(), AtSuffix, crc + rest));
              if t.Failed? then before.end == Refused(Kind(t.error)) && Sound()
              else Valid() && t == Finished && dStage == GetFrameHeader
                   && before == Outcome([], Done(rest, frameRemainingSize))
    {
      hide Run, Tail64, GoodEnv, SizesFit;
      SuffixOutcome(Environment(), Progress(), crc, rest);
      if LE32(crc, 0) != hash(xxh) { return Failed(ContentChecksumInvalid); }
      Reset();
      t := Finished;
    }

    // ------------------------------------------------------- skippable frames

    /** dstage_getSFrameSize, falling through to dstage_storeSFrameSize. */
    method DoGetSFrameSize(src: seq<byte>, p0: nat, ghost rest: seq<byte>) returns (t: Turn, p: nat)
      requires Valid() && dStage == GetSFrameSize && p0 <= |src| && src[p0..] <= rest
      modifies this, header
      ensures p0 <= p <= |src| && unchanged(`tmpIn, `tmpOutBuffer, `dict, `dictOff, `dictSize, `predefined)
      ensures t.More? || t.Stop?
      ensures Valid() && Turned(old(Future(rest)), t, [], rest, p - p0) && dStage in {StoreSFrameSize, SkipSkippable}
      ensures t.More? ==> p > p0
      ensures t.Stop? ==> p == |src| && Starved()
    {
      hide Run, Tail64, GoodEnv, KeptFits, Starved, HeaderStored, ParseHeader, Valid, HistoryOk, FlushOk, SizesFit,
        Prepend, Dict;
      OpenedOutside();
      PlainFuture(rest);
      if |src| - p0 >= 4 {
        p := p0 + 4;
        Ahead(src, p0, 4, rest);
        assert rest == src[p0..p] + rest[4..];
        t := DecodeSFrameSize(src[p0..p], rest[4..]);
      } else {
        tmpInSize, tmpInTarget, dStage := 4, 8, StoreSFrameSize;
        PlainFuture(rest);
        SettledOutside();
        t, p := DoStoreSFrameSize(src, p0, rest);
      }
    }

    /** dstage_storeSFrameSize. */
    method DoStoreSFrameSize(src: seq<byte>, p0: nat, ghost rest: seq<byte>) returns (t: Turn, p: nat)
      requires Valid() && dStage == StoreSFrameSize && p0 <= |src| && src[p0..] <= rest
      modifies this, header
      ensures p0 <= p <= |src| && unchanged(`tmpIn, `tmpOutBuffer, `dict, `dictOff, `dictSize, `predefined)
      ensures t.More? || t.Stop?
      ensures Valid() && Turned(old(Future(rest)), t, [], rest, p - p0) && dStage in {StoreSFrameSize, SkipSkippable}
      ensures t.More? ==> p > p0
      ensures t.Stop? ==> p == |src| && Starved()
    {
      hide Run, Tail64, GoodEnv, KeptFits, Starved, HeaderStored, ParseHeader, Valid, HistoryOk, FlushOk, SizesFit,
        Prepend, Dict, BufferNeeded;
      OpenedOutside();
      PlainFuture(rest);
      ghost var b0 := Buffered();
      var sizeToCopy := Min(tmpInTarget - tmpInSize, |src| - p0);
      HeaderInput(src, p0, sizeToCopy, 4);
      p := p0 + sizeToCopy;
      Ahead(src, p0, sizeToCopy, rest);
      Moved(b0, rest, sizeToCopy, header[4..tmpInSize + sizeToCopy]);
      tmpInSize := tmpInSize + sizeToCopy;
      if tmpInSize < tmpInTarget {
        t := Stop(tmpInTarget - tmpInSize);
        StarvedHere();
        SettledOutside();
        PlainFuture(rest[sizeToCopy..]);
      } else {
        t := DecodeSFrameSize(header[4..8], rest[sizeToCopy..]);
      }
    }

    method DecodeSFrameSize(b: seq<byte>, ghost rest: seq<byte>) returns (t: Turn)
      requires Outside() && |b| == 4
      modifies `info, `tmpInTarget, `dStage
      ensures Valid() && Buffers() && t == More && dStage == SkipSkippable
      ensures old(Run(Environment(), Progress(), AtSkipSize, b + rest)) == Future(rest) == Prepend([], Future(rest))
    {
      hide Run, Tail64, GoodEnv, KeptFits, Starved, SizesFit;
      ghost var e, st := Environment(), Progress();
      SkipSizeOutcome(e, st, b, rest);
      var sFrameSize := LE32(b, 0);
      info := info.(contentSize := sFrameSize);
      tmpInTarget, dStage := sFrameSize, SkipSkippable;
      SkipSame(e, st, sFrameSize, rest, Environment(), Progress());
      PlainFuture(rest);
      t := More;
    }

    /** dstage_skipSkippable. */
    method DoSkip(src: seq<byte>, p0: nat, ghost rest: seq<byte>) returns (t: Turn, p: nat)
      requires Valid() && dStage == SkipSkippable && p0 <= |src| && src[p0..] <= rest
      modifies this
      ensures p0 <= p <= |src| && unchanged(`tmpIn, `tmpOutBuffer)
      ensures t.Stop? || t.Finished?
      ensures Valid() && Turned(old(Future(rest)), t, [], rest, p - p0)
      ensures t.Stop? ==> p == |src| && dStage == SkipSkippable && Starved()
                          && unchanged(`dict, `dictOff, `dictSize, `predefined)
    {
      hide Run, Tail64, GoodEnv, KeptFits, Starved, HeaderStored, SizesFit;
      PlainFuture(rest);
      var skipSize := Min(tmpInTarget, |src| - p0);
      SkipPart(Environment(), Progress(), tmpInTarget, rest, skipSize, Environment(), Progress());
      p := p0 + skipSize;
      tmpInTarget := tmpInTarget - skipSize;
      if tmpInTarget != 0 {
        t := Stop(tmpInTarget);
        StarvedHere();
        PlainFuture(rest[skipSize..]);
      } else {
        Reset();
        t := Finished;
      }
    }

    // --------------------------------------------------------- the whole call

    /** One turn in a stage that writes no output. */
    method StepReading(src: seq<byte>, p0: nat, dstFull: bool, ghost rest: seq<byte>) returns (t: Turn, p: nat)
      requires Valid() && p0 <= |src| && src[p0..] <= rest
      requires dStage !in {CopyDirect, GetCBlock, StoreCBlock, FlushOut}
      modifies this, tmpIn, header
      ensures p0 <= p <= |src|
      ensures tmpIn == old(tmpIn) || fresh(tmpIn)
      ensures tmpOutBuffer == old(tmpOutBuffer) || fresh(tmpOutBuffer)
      ensures t.Failed? ==> old(Future(rest)).end == Refused(Kind(t.error)) && Sound()
      ensures !t.Failed? ==> Valid() && Turned(old(Future(rest)), t, [], rest, p - p0)
      ensures t.More? || t.Stop? ==> unchanged(`dict, `dictOff, `dictSize)
      ensures t.More? ==> dStage != FlushOut && p > p0
      ensures t.More? ==> old(dStage) !in {GetSuffix, StoreSuffix}
      ensures t.More? ==> if old(InFrame())
                          then InFrame() && dStage != Init && content == old(content) && info == old(info)
                          else dStage == Init || !InFrame()
      ensures t.Stop? ==> dStage !in {Init, FlushOut} && (dstFull || (p == |src| && Starved()))
      ensures t.More? || t.Stop? ==> predefined == old(predefined)
    {
      hide Run, Tail64, GoodEnv, KeptFits, Starved, Buffers, DictOk, HistoryOk, FlushOk, EndsWith, Future, Turned,
        SizesFit, Sound, Shape, Progress, CurrentPhase, Buffered;
      match dStage
      case GetFrameHeader => t, p := DoGetFrameHeader(src, p0, rest);
      case StoreFrameHeader => t, p := DoStoreFrameHeader(src, p0, rest);
      case Init => t, p := DoInit(src, p0, dstFull, rest);
      case GetBlockHeader => t, p := DoGetBlockHeader(src, p0, dstFull, rest);
      case StoreBlockHeader => t, p := DoStoreBlockHeader(src, p0, dstFull, rest);
      case GetBlockChecksum => t, p := DoGetBlockChecksum(src, p0, rest);
      case GetSuffix => t, p := DoGetSuffix(src, p0, rest);
      case StoreSuffix => t, p := DoStoreSuffix(src, p0, rest);
      case GetSFrameSize => t, p := DoGetSFrameSize(src, p0, rest);
      case StoreSFrameSize => t, p := DoStoreSFrameSize(src, p0, rest);
      case SkipSkippable => t, p := DoSkip(src, p0, rest);
    }

    /** One turn that hands out the block in tmpOut. */
    method StepFlush(src: seq<byte>, p0: nat, dst: array<byte>, start: nat, q0: nat, end: nat, ghost rest: seq<byte>)
      returns (t: Turn, p: nat, q: nat)
      requires Valid() && p0 <= |src| && src[p0..] <= rest && Io(dst, start, q0, end)
      requires start <= q0 <= end <= dst.Length
      requires dStage == FlushOut
      modifies this, tmpIn, tmpOutBuffer, dst
      ensures p0 <= p <= |src| && q0 <= q <= end && unchanged(`tmpIn, `tmpOutBuffer, `predefined)
      ensures forall k :: 0 <= k < dst.Length && !(q0 <= k < end) ==> dst[k] == old(dst[k])
      ensures t.Failed? ==> old(Future(rest)).end == Refused(Kind(t.error)) && Sound()
      ensures !t.Failed? ==> Valid() && Turned(old(Future(rest)), t, dst[q0..q], rest, p - p0)
      ensures t.More? ==> Io(dst, start, q, end) && (p > p0 || StageRank(dStage) < old(StageRank(dStage)))
      ensures t.Stop? ==> dStage != Init && (q == end || (p == |src| && Starved()))
      ensures !t.Finished? && (!t.Failed? && old(Behind(dst, q0)) ==> Behind(dst, q))
    {
      hide Run, Tail64, GoodEnv, KeptFits, Starved, Buffers, DictOk, HistoryOk, FlushOk, Io, EndsWith, Future, SizesFit,
        Sound, Behind, Shape, Progress, CurrentPhase, Buffered, Turned;
      ghost var before := Future(rest);
      p := p0;
      t, q := DoFlushOut(dst, start, q0, end, rest);
      NothingUsed(before, t, dst[q0..q], rest);
    }

    /** One turn in a stage that may write output. */
    method StepWriting(src: seq<byte>, p0: nat, dst: array<byte>, start: nat, q0: nat, end: nat, ghost rest: seq<byte>)
      returns (t: Turn, p: nat, q: nat)
      requires Valid() && p0 <= |src| && src[p0..] <= rest && Io(dst, start, q0, end)
      requires start <= q0 <= end <= dst.Length
      requires dStage in {CopyDirect, GetCBlock, StoreCBlock, FlushOut}
      modifies this, tmpIn, tmpOutBuffer, dst
      ensures p0 <= p <= |src| && q0 <= q <= end && unchanged(`tmpIn, `tmpOutBuffer, `predefined)
      ensures forall k :: 0 <= k < dst.Length && !(q0 <= k < end) ==> dst[k] == old(dst[k])
      ensures t.Failed? ==> old(Future(rest)).end == Refused(Kind(t.error)) && Sound()
      ensures !t.Failed? ==> Valid() && Turned(old(Future(rest)), t, dst[q0..q], rest, p - p0)
      ensures t.More? ==> Io(dst, start, q, end) && (p > p0 || StageRank(dStage) < old(StageRank(dStage)))
      ensures t.Stop? ==> dStage != Init && (q == end || (p == |src| && Starved()))
      ensures !t.Finished? && (!t.Failed? && old(Behind(dst, q0)) ==> Behind(dst, q))
    {
      hide Run, Tail64, GoodEnv, KeptFits, Starved, Buffers, DictOk, HistoryOk, FlushOk, Io, EndsWith, Future, SizesFit,
        Sound, Behind, Shape, Progress, CurrentPhase, Buffered, Turned, Prepend;
      match dStage
      case CopyDirect => t, p, q := DoCopyDirect(src, p0, dst, start, q0, end, rest);
      case GetCBlock => t, p, q := DoGetCBlock(src, p0, dst, start, q0, end, rest);
      case StoreCBlock => t, p, q := DoStoreCBlock(src, p0, dst, start, q0, end, rest);
      case FlushOut => t, p, q := StepFlush(src, p0, dst, start, q0, end, rest);
    }

    /** At the end of a call: unless the caller keeps the output where it is, the history that
        later blocks need is moved to tmpOutBuffer. */
    method Preserve(stableDst: bool)
      requires Valid() && dStage != Init
      modifies `dict, `dictOff, `dictSize, `tmpOut, tmpOutBuffer
      ensures Valid() && Buffers()
      ensures Pending() == old(Pending()) && Buffered() == old(Buffered()) && CurrentPhase() == old(CurrentPhase())
      ensures if !stableDst && info.linked && Decoding() then dict == tmpOutBuffer
              else unchanged(`dict, `dictOff, `dictSize)
    {
      if info.linked && dict != tmpOutBuffer && !stableDst && Decoding() {
        if dStage == FlushOut {
          PreserveFlush(Block());
        } else {
          PreserveDict();
        }
      }
    }

    method PreserveFlush(ghost b: seq<byte>)
      requires Valid() && dStage == FlushOut && info.linked && dict != tmpOutBuffer && b == Block()
      modifies `dict, `dictOff, `dictSize, tmpOutBuffer
      ensures Valid() && Buffers() && Pending() == old(Pending()) && dict == tmpOutBuffer
    {
      hide Tail64, GoodEnv, KeptFits, HeaderStored, SizesFit;
      assert Pending() == b[tmpOutStart..];
      MoveKept(0, b);
      assert Pending() == b[tmpOutStart..];
    }

    method PreserveDict()
      requires Valid() && dStage !in {Init, FlushOut} && Decoding() && info.linked && dict != tmpOutBuffer
      modifies `dict, `dictOff, `dictSize, `tmpOut, tmpOutBuffer
      ensures Valid() && Buffers() && dict == tmpOutBuffer
      ensures Buffered() == old(Buffered())
    {
      hide Tail64, GoodEnv, Valid, HistoryOk, FlushOk, Buffers, BetweenBlocks, Past, Buffered, Dict, LastOf;
      StagesOfBlocks();
      OpenedBlocks();
      var newDictSize := Min(dictSize, KB64);
      ghost var kept := TailOfDict(newDictSize);
      CopyDict(newDictSize, kept);
      AdoptDict(newDictSize, kept);
    }

    /** The last n bytes of the dictionary, all that matters of it. */
    lemma TailOfDict(n: nat) returns (kept: seq<byte>)
      requires BetweenBlocks() && info.linked && n == Min(dictSize, KB64)
      ensures GoodEnv(Env(dec, hash, [])) && DictOk() && frameRemainingSize < U64
      ensures info.contentChecksum ==> xxh == content
      ensures dStage in {GetBlockHeader, StoreBlockHeader, CopyDirect, GetBlockChecksum, GetCBlock, StoreCBlock}
      ensures kept == LastOf(Dict(), n) && Tail64(kept) == Tail64(Past())
    {
      hide Tail64, GoodEnv, SizesFit;
      kept := LastOf(Dict(), n);
      ShortTail(Dict(), n);
    }

    /** Copies the last n bytes of the dictionary to the beginning of tmpOutBuffer, between blocks. */
    method CopyDict(n: nat, ghost kept: seq<byte>)
      requires BetweenBlocks() && Buffers() && info.linked && dict != tmpOutBuffer
      requires n == Min(dictSize, KB64) && kept == LastOf(Dict(), n)
      modifies tmpOutBuffer
      ensures Buffers() && DictOk() && n <= tmpOutBuffer.Length && tmpOutBuffer[..n] == kept
      ensures Buffered() == old(Buffered())
    {
      hide Tail64, GoodEnv, SizesFit;
      if n > 0 { CopyTail(n, kept); }
      assert n == 0 ==> tmpOutBuffer[..n] == kept;
    }

    method AdoptDict(n: nat, ghost kept: seq<byte>)
      requires GoodEnv(Env(dec, hash, [])) && Buffers() && DictOk() && info.linked && frameRemainingSize < U64
      requires dStage in {GetBlockHeader, StoreBlockHeader, CopyDirect, GetBlockChecksum, GetCBlock, StoreCBlock}
      requires n <= tmpOutBuffer.Length && tmpOutBuffer[..n] == kept && Tail64(kept) == Tail64(Past())
      requires info.contentChecksum ==> xxh == content
      modifies `dict, `dictOff, `dictSize, `tmpOut
      ensures Valid() && Buffers() && dict == tmpOutBuffer
      ensures Buffered() == old(Buffered())
    {
      hide Tail64, GoodEnv, Valid, HeaderStored, Fits, SizesFit;
      dict, dictOff, dictSize, tmpOut := tmpOutBuffer, 0, n, n;
      assert Dict() == kept;
      SettledBlocks();
    }

    lemma ShortTail(h: seq<byte>, n: nat)
      requires n <= |h| && (n == |h| || n == KB64)
      ensures Tail64(LastOf(h, n)) == Tail64(h)
    {
    }

    /** Reading input leaves the output area as good as it was. */
    lemma IoAgain(dst: array<byte>, start: nat, q: nat, end: nat)
      requires Valid() && dStage != FlushOut && start <= q <= end <= dst.Length && dst !in Internal()
      requires dict == dst ==> dictOff + dictSize <= q || end <= dictOff
      requires if InFrame() && dStage != Init then Decoding() && info.linked ==> EndsWith(content, dst[start..q])
               else q == start
      ensures Io(dst, start, q, end)
    {
      hide Tail64, GoodEnv, KeptFits, HeaderStored, SizesFit;
      assert content[..|content| - 0] == content;
    }

    lemma IoFacts(dst: array<byte>, start: nat, q: nat, end: nat)
      requires Valid() && dStage != FlushOut && Io(dst, start, q, end)
      ensures start <= q <= end <= dst.Length && dst !in Internal()
      ensures dict == dst ==> dictOff + dictSize <= q || end <= dictOff
      ensures if InFrame() then Decoding() && info.linked ==> EndsWith(content, dst[start..q]) else q == start
    {
      hide Tail64, GoodEnv, KeptFits, HeaderStored, SizesFit;
      assert content[..|content| - 0] == content;
    }

    /** One turn of the state machine. */
    method Step(src: seq<byte>, p0: nat, dst: array<byte>, start: nat, q0: nat, end: nat, ghost rest: seq<byte>)
      returns (t: Turn, p: nat, q: nat)
      requires Valid() && p0 <= |src| && src[p0..] <= rest && Io(dst, start, q0, end)
      requires start <= q0 <= end <= dst.Length
      modifies this, tmpIn, tmpOutBuffer, header, dst
      ensures p0 <= p <= |src| && q0 <= q <= end
      ensures forall k :: 0 <= k < dst.Length && !(q0 <= k < end) ==> dst[k] == old(dst[k])
      ensures tmpIn == old(tmpIn) || fresh(tmpIn)
      ensures tmpOutBuffer == old(tmpOutBuffer) || fresh(tmpOutBuffer)
      ensures t.Failed? ==> old(Future(rest)).end == Refused(Kind(t.error)) && Sound()
      ensures !t.Failed? ==> Valid() && Turned(old(Future(rest)), t, dst[q0..q], rest, p - p0)
      ensures t.More? ==> Io(dst, start, q, end) && (p > p0 || StageRank(dStage) < old(StageRank(dStage)))
      ensures t.Stop? ==> dStage != Init && (q == end || (p == |src| && Starved()))
      ensures t.More? || t.Stop? ==> predefined == old(predefined) && (old(Behind(dst, q0)) ==> Behind(dst, q))
    {
      hide Run, Tail64, GoodEnv, KeptFits, Starved, Buffers, DictOk, HistoryOk, FlushOk, Io, EndsWith, Future,
        Turned, SizesFit, Sound;
      if dStage in {CopyDirect, GetCBlock, StoreCBlock, FlushOut} {
        t, p, q := StepWriting(src, p0, dst, start, q0, end, rest);
      } else {
        IoFacts(dst, start, q0, end);
        ghost var w := dst[start..q0];
        t, p := StepReading(src, p0, q0 == end, rest);
        q := q0;
        assert dst[start..q] == w && dst[q0..q] == [];
        if t.More? { IoAgain(dst, start, q, end); }
      }
    }

    /** LZ4F_decompress: decodes as much of src as there is room for in dst[start..start + capacity).
        more is the input that later calls will bring. */
    method Decompress(dst: array<byte>, start: nat, capacity: nat, src: seq<byte>, stableDst: bool,
                      ghost more: seq<byte>)
      returns (t: Turn, used: nat, written: nat)
      requires Valid() && start + capacity <= dst.Length && dst !in Internal()
      requires dict == dst ==> dictOff + dictSize <= start || start + capacity <= dictOff
      modifies this, tmpIn, tmpOutBuffer, header, dst
      ensures used <= |src| && written <= capacity && !t.More?
      ensures forall k :: 0 <= k < dst.Length && !(start <= k < start + capacity) ==> dst[k] == old(dst[k])
      ensures tmpIn == old(tmpIn) || fresh(tmpIn)
      ensures tmpOutBuffer == old(tmpOutBuffer) || fresh(tmpOutBuffer)
      ensures t.Failed? ==> old(Future(src + more)).end == Refused(Kind(t.error)) && Sound() && used == written == 0
      ensures !t.Failed? ==>
                Valid() && Turned(old(Future(src + more)), t, dst[start..start + written], src + more, used)
      ensures t.Stop? ==> dStage != Init && (written == capacity || (used == |src| && Starved()))
      ensures t.Stop? ==> predefined == old(predefined) && (old(Behind(dst, start)) ==> Behind(dst, start + written))
      ensures t.Stop? && !stableDst && info.linked && Decoding() ==> dict == tmpOutBuffer
    {
      hide Run, Tail64, GoodEnv, Starved, Buffers, DictOk, HistoryOk, FlushOk, Io, EndsWith, Future, SizesFit;
      CallStarts(dst, start, start + capacity);
      var p, q;
      t, p, q := Turns(src, dst, start, start + capacity, src + more);
      if t.Failed? { return t, 0, 0; }
      used, written := p, q - start;
      if t.Stop? { PreserveAll(stableDst, (src + more)[p..]); }
    }

    method PreserveAll(stableDst: bool, ghost rest: seq<byte>)
      requires Valid() && dStage != Init
      modifies `dict, `dictOff, `dictSize, `tmpOut, tmpOutBuffer
      ensures Valid() && Future(rest) == old(Future(rest)) && (old(Starved()) ==> Starved())
      ensures dict == tmpOutBuffer || unchanged(`dict, `dictOff, `dictSize)
      ensures !stableDst && info.linked && Decoding() ==> dict == tmpOutBuffer
    {
      hide Run, Tail64, GoodEnv, KeptFits, HeaderStored, SizesFit;
      Preserve(stableDst);
    }

    /** A turn after others: what has been written and what is to come make up the same as before. */
    method NextTurn(src: seq<byte>, p0: nat, dst: array<byte>, start: nat, q0: nat, end: nat, ghost input: seq<byte>,
                    ghost before: Outcome)
      returns (t: Turn, p: nat, q: nat)
      requires Valid() && p0 <= |src| && src <= input && Io(dst, start, q0, end)
      requires start <= q0 <= end <= dst.Length
      requires Turned(before, More, dst[start..q0], input, p0)
      modifies this, tmpIn, tmpOutBuffer, header, dst
      ensures p0 <= p <= |src| && q0 <= q <= end
      ensures forall k :: 0 <= k < dst.Length && !(q0 <= k < end) ==> dst[k] == old(dst[k])
      ensures tmpIn == old(tmpIn) || fresh(tmpIn)
      ensures tmpOutBuffer == old(tmpOutBuffer) || fresh(tmpOutBuffer)
      ensures t.Failed? ==> before.end == Refused(Kind(t.error)) && Sound()
      ensures !t.Failed? ==> Valid() && Turned(before, t, dst[start..q], input, p)
      ensures t.More? ==> Io(dst, start, q, end) && (p > p0 || StageRank(dStage) < old(StageRank(dStage)))
      ensures t.Stop? ==> dStage != Init && (q == end || (p == |src| && Starved()))
      ensures t.More? || t.Stop? ==> predefined == old(predefined) && (old(Behind(dst, q0)) ==> Behind(dst, q))
    {
      hide Run, Tail64, GoodEnv, Starved, Buffers, DictOk, HistoryOk, FlushOk, Io, EndsWith, Future, SizesFit, Sound,
        Behind;
      ghost var rest, out := input[p0..], dst[start..q0];
      assert src[p0..] <= rest;
      t, p, q := Step(src, p0, dst, start, q0, end, rest);
      assert dst[start..q0] == out;
      assert dst[start..q] == out + dst[q0..q];
      assert rest[p - p0..] == input[p..];
      if t.More? || t.Stop? { PrependTwice(out, dst[q0..q], Future(input[p..])); }
    }

    /** The loop over the stages. */
    method Turns(src: seq<byte>, dst: array<byte>, start: nat, end: nat, ghost input: seq<byte>)
      returns (t: Turn, p: nat, q: nat)
      requires Valid() && Io(dst, start, start, end) && start <= end <= dst.Length && src <= input
      modifies this, tmpIn, tmpOutBuffer, header, dst
      ensures p <= |src| && start <= q <= end && !t.More?
      ensures forall k :: 0 <= k < dst.Length && !(start <= k < end) ==> dst[k] == old(dst[k])
      ensures tmpIn == old(tmpIn) || fresh(tmpIn)
      ensures tmpOutBuffer == old(tmpOutBuffer) || fresh(tmpOutBuffer)
      ensures t.Failed? ==> old(Future(input)).end == Refused(Kind(t.error)) && Sound()
      ensures !t.Failed? ==> Valid() && Turned(old(Future(input)), t, dst[start..q], input, p)
      ensures t.Stop? ==> dStage != Init && (q == end || (p == |src| && Starved())) && predefined == old(predefined)
      ensures t.Stop? && old(Behind(dst, start)) ==> Behind(dst, q)
    {
      hide Run, Tail64, GoodEnv, Starved, Buffers, DictOk, HistoryOk, FlushOk, Io, EndsWith, Future, SizesFit, Sound,
        Behind, Turned;
      ghost var before := Future(input);
      t, p, q := More, 0, start;
      NoTurnYet(before, dst[start..start], input);
      while t == More
        invariant p <= |src| && start <= q <= end
        invariant forall k :: 0 <= k < dst.Length && !(start <= k < end) ==> dst[k] == old(dst[k])
        invariant tmpIn == old(tmpIn) || fresh(tmpIn)
        invariant tmpOutBuffer == old(tmpOutBuffer) || fresh(tmpOutBuffer)
        invariant t.Failed? ==> before.end == Refused(Kind(t.error)) && Sound()
        invariant !t.Failed? ==> Valid() && Turned(before, t, dst[start..q], input, p)
        invariant t.More? ==> Io(dst, start, q, end)
        invariant t.Stop? ==> dStage != Init && (q == end || (p == |src| && Starved()))
        invariant t.More? || t.Stop? ==> predefined == old(predefined) && (old(Behind(dst, start)) ==> Behind(dst, q))
        decreases |src| - p, if t == More then 1 + StageRank(dStage) else 0
      {
        t, p, q := NextTurn(src, p, dst, start, q, end, input, before);
      }
    }

    lemma NoTurnYet(before: Outcome, out: seq<byte>, input: seq<byte>)
      requires Buffers() && before == Future(input) && out == []
      ensures Turned(before, More, out, input, 0)
    {
      hide Run;
      PrependNothing(before);
      assert input[0..] == input;
    }

    lemma CallStarts(dst: array<byte>, start: nat, end: nat)
      requires Valid() && start <= end <= dst.Length && dst !in Internal()
      requires dict == dst ==> dictOff + dictSize <= start || end <= dictOff
      ensures Io(dst, start, start, end)
    {
      hide Tail64, GoodEnv, KeptFits, HeaderStored, SizesFit;
    }

    // ------------------------------------------------ predefined dictionaries

    /** What the rest of the input will give when bytes is the predefined dictionary. */
    ghost function FutureWith(bytes: seq<byte>, rest: seq<byte>): Outcome
      requires Buffers()
      reads this, tmpIn, tmpOutBuffer, header
    {
      Prepend(Pending(), Run(Env(dec, hash, bytes), Progress(), CurrentPhase(), Buffered() + rest))
    }

    /** The stages before the first block, in which a dictionary can still be given. */
    predicate BeforeBlocks()
      reads this
    {
      dStage in {GetFrameHeader, StoreFrameHeader, Init}
    }

    /** LZ4F_decompress_usingDict, for the n bytes of d at dOff; d must stay as it is. */
    method DecompressUsingDict(dst: array<byte>, start: nat, capacity: nat, src: seq<byte>, d: array<byte>, dOff: nat,
                               n: nat, stableDst: bool, ghost more: seq<byte>)
      returns (t: Turn, used: nat, written: nat)
      requires Valid() && start + capacity <= dst.Length && dst !in Internal() && d !in Internal() && d != dst
      requires dOff + n <= d.Length && (dict == dst ==> dictOff + dictSize <= start || start + capacity <= dictOff)
      modifies this, tmpIn, tmpOutBuffer, header, dst
      ensures used <= |src| && written <= capacity && !t.More?
      ensures forall k :: 0 <= k < dst.Length && !(start <= k < start + capacity) ==> dst[k] == old(dst[k])
      ensures tmpIn == old(tmpIn) || fresh(tmpIn)
      ensures tmpOutBuffer == old(tmpOutBuffer) || fresh(tmpOutBuffer)
      ensures var before := if old(BeforeBlocks()) then old(FutureWith(d[dOff..dOff + n], src + more))
                            else old(Future(src + more));
              if t.Failed? then before.end == Refused(Kind(t.error)) && Sound() && used == written == 0
              else Valid() && Turned(before, t, dst[start..start + written], src + more, used)
      ensures t.Stop? ==> dStage != Init && (written == capacity || (used == |src| && Starved()))
      ensures t.Stop? ==> predefined == if old(BeforeBlocks()) then d[dOff..dOff + n] else old(predefined)
      ensures t.Stop? && old(Behind(dst, start)) ==> Behind(dst, start + written)
      ensures t.Stop? && !stableDst && info.linked && Decoding() ==> dict == tmpOutBuffer
    {
      hide Run, Tail64, GoodEnv, KeptFits, Starved, ParseHeader, SizesFit;
      if dStage in {GetFrameHeader, StoreFrameHeader, Init} {
        dict, dictOff, dictSize := d, dOff, n;
        predefined := d[dOff..dOff + n];
        assert dStage == Init ==> Past() == predefined;
      }
      t, used, written := Decompress(dst, start, capacity, src, stableDst, more);
    }
  }

  // ---------------------------------------------------------- runs of calls

  /** One call: how much input to give; how much room for output, behind the output of the call
      before if there is that much room left and else in a new buffer, which is larger by spare;
      whether the output stays. */
  datatype Call = Call(give: nat, room: nat, behind: bool, spare: nat, stableDst: bool)

  /** One call of a run, with its output at dst[at..]; it returns what it wrote there. */
  method OneCall(c: Dctx, input: seq<byte>, used: nat, call: Call, dst: array<byte>, at: nat,
                 d: array<byte>, dOff: nat, n: nat, ghost bytes: seq<byte>)
    returns (t: Turn, taken: nat, x: seq<byte>)
    requires c.Valid() && used <= |input| && (c.BeforeBlocks() || c.predefined == bytes)
    requires d !in c.Internal() && dOff + n <= d.Length && bytes == d[dOff..dOff + n]
    requires at + call.room <= dst.Length && dst !in c.Internal() && d != dst && c.Behind(dst, at)
    modifies c, c.tmpIn, c.tmpOutBuffer, c.header, dst
    ensures at + |x| <= dst.Length && x == dst[at..at + |x|] && (t.Stop? ==> c.Behind(dst, at + |x|))
    ensures dst[..at] == old(dst[..at])
    ensures c.tmpIn == old(c.tmpIn) || fresh(c.tmpIn)
    ensures c.tmpOutBuffer == old(c.tmpOutBuffer) || fresh(c.tmpOutBuffer)
    ensures used + taken <= |input| && |x| <= call.room && !t.More?
    ensures var before := old(c.FutureWith(bytes, input[used..]));
            && (t.Failed? ==> before.end == Refused(Kind(t.error)) && c.Sound() && taken == 0 && x == [])
            && (t.Finished? ==> && before == Outcome(x, Done(input[used + taken..], c.frameRemainingSize))
                                && c.Valid() && c.dStage == GetFrameHeader)
            && (t.Stop? ==> c.Valid() && c.predefined == bytes
                            && before == Prepend(x, c.FutureWith(bytes, input[used + taken..])))
    ensures t.Stop? && |x| < call.room ==>
              taken == Min(call.give, |input| - used) && c.FutureWith(bytes, []) == Outcome([], Short)
  {
    hide Run, Tail64, GoodEnv, KeptFits, ParseHeader, Dctx.HistoryOk, Dctx.FlushOk, Dctx.HeaderStored, SizesFit;
    var end := used + Min(call.give, |input| - used);
    assert input[used..end] + input[end..] == input[used..];
    assert c.predefined == bytes ==> c.FutureWith(bytes, input[used..]) == c.Future(input[used..]);
    var written;
    t, taken, written :=
      c.DecompressUsingDict(dst, at, call.room, input[used..end], d, dOff, n, call.stableDst, input[end..]);
    x := dst[at..at + written];
    assert input[used..][taken..] == input[used + taken..];
  }

  lemma Begins(c: Dctx, input: seq<byte>, bytes: seq<byte>)
    requires c.Valid() && c.dStage == GetFrameHeader
    ensures FrameFrom(Env(c.dec, c.hash, bytes), c.frameRemainingSize, input)
         == Prepend([], c.FutureWith(bytes, input[0..]))
  {
    hide Run, Tail64, GoodEnv, ParseHeader, SizesFit;
    var e, st := Env(c.dec, c.hash, bytes), Fresh(c.frameRemainingSize);
    HeaderForgets(e, c.Progress(), st, input);
    assert [] + input == input;
    PrependNothing(Run(e, st, AtHeader, input));
    assert input[0..] == input;
  }

  /** One more call of a run that has given out so far. */
  method NextCall(c: Dctx, input: seq<byte>, used: nat, call: Call, dst: array<byte>, at: nat, d: array<byte>,
                  dOff: nat, n: nat, ghost bytes: seq<byte>, ghost out: seq<byte>, ghost f: Outcome)
    returns (t: Turn, taken: nat, x: seq<byte>)
    requires c.Valid() && used <= |input| && (c.BeforeBlocks() || c.predefined == bytes)
    requires d !in c.Internal() && dOff + n <= d.Length && bytes == d[dOff..dOff + n]
    requires at + call.room <= dst.Length && dst !in c.Internal() && d != dst && c.Behind(dst, at)
    requires f == Prepend(out, c.FutureWith(bytes, input[used..]))
    modifies c, c.tmpIn, c.tmpOutBuffer, c.header, dst
    ensures c.tmpIn == old(c.tmpIn) || fresh(c.tmpIn)
    ensures c.tmpOutBuffer == old(c.tmpOutBuffer) || fresh(c.tmpOutBuffer)
    ensures used + taken <= |input| && at + |x| <= dst.Length && |x| <= call.room && !t.More?
    ensures t.Failed? ==> f.end == Refused(Kind(t.error)) && out + x <= f.out && c.Sound()
    ensures t.Finished? ==> f == Outcome(out + x, Done(input[used + taken..], c.frameRemainingSize))
                            && c.Valid() && c.dStage == GetFrameHeader
    ensures t.Stop? ==> c.Valid() && c.predefined == bytes && c.Behind(dst, at + |x|)
                        && f == Prepend(out + x, c.FutureWith(bytes, input[used + taken..]))
    ensures t.Stop? && |x| < call.room ==> c.FutureWith(bytes, []) == Outcome([], Short)
  {
    hide Run, Tail64, GoodEnv, KeptFits, ParseHeader, Dctx.HistoryOk, Dctx.FlushOk, Dctx.HeaderStored,
      Dctx.FutureWith, Dctx.Buffers, SizesFit, Dctx.Sound, Dctx.Behind;
    t, taken, x := OneCall(c, input, used, call, dst, at, d, dOff, n, bytes);
    assert x == [] ==> out + x == out;
    if t.Stop? { PrependTwice(out, x, c.FutureWith(bytes, input[used + taken..])); }
  }

  /** Decodes a frame with any sequence of calls, on a context that is new, has completed a frame or
      was reset.  However the input is cut, wherever the output goes and however much room each call
      has, the output is that of the one-shot meaning of the frame; the result is Finished exactly
      when the frame is complete, and a call that leaves room has used all it was given and can tell
      nothing more without further input.  After an error the context can be reset. */
  method DecodeFrame(c: Dctx, input: seq<byte>, plan: seq<Call>, d: array<byte>, dOff: nat, n: nat)
    returns (t: Turn, used: nat, out: seq<byte>, starved: bool)
    requires c.Valid() && c.dStage == GetFrameHeader
    requires d !in c.Internal() && dOff + n <= d.Length
    modifies c, c.tmpIn, c.tmpOutBuffer, c.header
    ensures used <= |input| && c.Sound()
    ensures var f := FrameFrom(Env(c.dec, c.hash, old(d[dOff..dOff + n])), old(c.frameRemainingSize), input);
            match t
            case Failed(error) => f.end == Refused(Kind(error)) && out <= f.out
            case Finished => f == Outcome(out, Done(input[used..], c.frameRemainingSize))
                             && c.Valid() && c.dStage == GetFrameHeader
            case _ => c.Valid() && out <= f.out && (starved && used == |input| ==> f == Outcome(out, Short))
    ensures t.More? ==> plan == []
    ensures plan != [] && t.Stop? && !starved ==> |out| >= plan[|plan| - 1].room
  {
    hide Run, Tail64, GoodEnv, KeptFits, ParseHeader, Dctx.HistoryOk, Dctx.FlushOk, Dctx.HeaderStored,
      Dctx.FutureWith, Dctx.Buffers, SizesFit, Dctx.Sound, Dctx.DictOk;
    t, used, out, starved := More, 0, [], false;
    ghost var bytes := d[dOff..dOff + n];
    ghost var f := FrameFrom(Env(c.dec, c.hash, bytes), c.frameRemainingSize, input);
    Begins(c, input, bytes);
    var i, dst := 0, new byte[0];
    var at: nat := 0;
    while i < |plan| && (t.More? || t.Stop?)
      invariant i <= |plan| && used <= |input|
      invariant c.tmpIn == old(c.tmpIn) || fresh(c.tmpIn)
      invariant c.tmpOutBuffer == old(c.tmpOutBuffer) || fresh(c.tmpOutBuffer)
      invariant d !in c.Internal() && d[dOff..dOff + n] == bytes
      invariant fresh(dst) && dst !in c.Internal() && (t.More? || t.Stop? ==> c.Behind(dst, at))
      invariant t.Failed? ==> f.end == Refused(Kind(t.error)) && out <= f.out && c.Sound()
      invariant t.Finished? ==> f == Outcome(out, Done(input[used..], c.frameRemainingSize))
                                && c.Valid() && c.dStage == GetFrameHeader
      invariant t.More? || t.Stop? ==> c.Valid() && f == Prepend(out, c.FutureWith(bytes, input[used..]))
      invariant t.More? ==> i == 0 && !starved && c.BeforeBlocks()
      invariant t.Stop? ==> i > 0 && c.predefined == bytes && (!starved ==> |out| >= plan[i - 1].room)
      invariant t.Stop? && starved ==> c.FutureWith(bytes, []) == Outcome([], Short)
    {
      if !plan[i].behind || at + plan[i].room > dst.Length {
        dst, at := new byte[plan[i].room + plan[i].spare], 0;
      }
      var taken, x;
      t, taken, x := NextCall(c, input, used, plan[i], dst, at, d, dOff, n, bytes, out, f);
      out := out + x;
      used, at := used + taken, at + |x|;
      starved := |x| < plan[i].room;
      i := i + 1;
    }
    if !t.Failed? { c.ValidIsSound(); }
    assert out + [] == out;
    assert used == |input| ==> input[used..] == [];
  }

  /** Decodes a frame after a reset at any time, in mid-frame or after an error, in terms of what the
      frame means to a new context.  It is the same, except that a frame that does not give its size
      is refused at its end mark if the aborted frame still expected something. */
  method DecodeAfterReset(c: Dctx, input: seq<byte>, plan: seq<Call>, d: array<byte>, dOff: nat, n: nat)
    returns (t: Turn, used: nat, out: seq<byte>, starved: bool)
    requires c.Sound() && d !in c.Internal() && dOff + n <= d.Length
    modifies c, c.tmpIn, c.tmpOutBuffer, c.header
    ensures used <= |input| && c.Sound()
    ensures var e := Env(c.dec, c.hash, old(d[dOff..dOff + n]));
            var f, harmed := Frame(e, input), old(c.frameRemainingSize) > 0 && Ends(e, input) && !Sized(e, input);
            match t
            case Failed(error) =>
              out <= f.out && if harmed then error == FrameSizeWrong else f.end == Refused(Kind(error))
            case Finished => !harmed && Seen(f) == Outcome(out, Done(input[used..], 0))
            case _ => out <= f.out && (starved && used == |input| ==> !harmed && f == Outcome(out, Short))
  {
    hide Frame, FrameFrom, Ends, Sized, Tail64, GoodEnv, Dctx.Sound;
    ghost var e := Env(c.dec, c.hash, d[dOff..dOff + n]);
    c.Reset();
    FrameAfterReset(e, c.frameRemainingSize, input);
    t, used, out, starved := DecodeFrame(c, input, plan, d, dOff, n);
  }
}
