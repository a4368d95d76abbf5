/** LZ4F_compressBegin, compressUpdate, flush and compressEnd: the buffering encoder, which
    keeps the last 64 KB of input where the block compressor can reach them. */
module FrameEncoder {
  import opened Lz4Format
  import opened FrameFormat
  import opened FrameBytes
  import opened FrameWriter

  datatype Result<T> = Ok(value: T) | Err(error: Error)

  /** LZ4F_preferences_t, as far as the fast levels use it. */
  datatype Prefs = Prefs(info: Info, autoFlush: bool)

  /** The preferences with the default block size in place of none. */
  function Effective(p: Prefs): (e: Prefs)
    ensures p.info.blockSizeID in {0, 4, 5, 6, 7} && p.info.contentSize < U64 && p.info.dictID < U32 ==> e.info.Valid()
  {
    if p.info.blockSizeID == 0 then p.(info := p.info.(blockSizeID := 4)) else p
  }

  /** What the header of a frame must say: all that was asked for, and blocks of up to 64 KB if no size
      was. */
  function Asked(info: Info): Info {
    Info(info.linked, info.blockChecksum, info.contentChecksum, if info.blockSizeID == 0 then 4 else info.blockSizeID,
         info.contentSize, info.dictID)
  }

  /** What it must say for a whole source: its size, if any was announced; the smallest blocks that the
      source needs, up to those asked for; linked ones only if they were asked for and it needs two. */
  function AskedWhole(info: Info, srcSize: nat): Info {
    var id := OptimalID(info.blockSizeID, srcSize);
    Info(info.linked && srcSize > BlockSize(id), info.blockChecksum, info.contentChecksum, if id == 0 then 4 else id,
         if info.contentSize != 0 then srcSize else 0, info.dictID)
  }

  /** What a block compressor promises: its output is smaller than the capacity, and decodes to
      the block after any history that ends with the one it was given. */
  ghost predicate GoodCompressor(compress: (seq<byte>, seq<byte>, nat) -> Option<seq<byte>>,
                                 dec: (seq<byte>, seq<byte>, nat) -> Option<seq<byte>>) {
    forall h, b, cap :: compress(h, b, cap).Some? ==>
      && 0 < |compress(h, b, cap).value| <= cap
      && forall g, max :: |b| <= max && max > 0 ==> dec(g + h, compress(h, b, cap).value, max) == Some(b)
  }

  ghost predicate GoodHash(hash: seq<byte> -> nat) {
    forall s :: hash(s) < U32
  }

  // --------------------------------------------------------------------- sizes

  /** The blocks that n bytes make, when b of them fit in one and the last may be shorter. */
  function BlockCount(n: nat, b: pos, flush: bool): nat {
    n / b + (if flush && n % b > 0 then 1 else 0)
  }

  /** LZ4F_compressBound_internal; both numbers of blocks are kept in 32 bits. */
  function CompressBound(srcSize: nat, prefs: Prefs, alreadyBuffered: nat): nat {
    var flush := prefs.autoFlush || srcSize == 0;
    var blockSize := BlockSize(prefs.info.blockSizeID);
    var maxSrcSize := srcSize + Min(alreadyBuffered, blockSize - 1);
    var nbFullBlocks := maxSrcSize / blockSize % U32;
    var lastBlockSize := if flush then maxSrcSize % blockSize else 0;
    var nbBlocks := (nbFullBlocks + (if lastBlockSize > 0 then 1 else 0)) % U32;
    (BH_SIZE + prefs.info.CrcSize()) * nbBlocks + blockSize * nbFullBlocks + lastBlockSize
    + BH_SIZE + (if prefs.info.contentChecksum then BF_SIZE else 0)
  }

  /** The space blocks of b bytes take, n bytes in all, each with a header and a checksum. */
  function BlockSpace(n: nat, b: pos, over: nat, flush: bool): nat {
    over * BlockCount(n, b, flush) + (if flush then n else n / b * b)
  }

  /** What the blocks of a call and the end of the frame can take. */
  function FrameSpace(n: nat, prefs: Prefs): nat {
    BlockSpace(n, BlockSize(prefs.info.blockSizeID), BH_SIZE + prefs.info.CrcSize(), prefs.autoFlush)
    + BH_SIZE + (if prefs.info.contentChecksum then BF_SIZE else 0)
  }

  /** The bound leaves room for all the blocks of a call, and for the end of the frame, if and only
      if the number of blocks fits in 32 bits. */
  lemma BoundIsSpace(srcSize: nat, prefs: Prefs, buffered: nat)
    requires buffered < BlockSize(prefs.info.blockSizeID)
    ensures FrameSpace(srcSize + buffered, prefs) <= CompressBound(srcSize, prefs, buffered)
            <==> BlockCount(srcSize + buffered, BlockSize(prefs.info.blockSizeID), prefs.autoFlush) < U32
  {
    var b, n, over := BlockSize(prefs.info.blockSizeID), srcSize + buffered, BH_SIZE + prefs.info.CrcSize();
    if srcSize == 0 {
      QuotientIs(n, b, 0, n);
    } else {
      BoundOf(srcSize, prefs, buffered, b, n, over);
      BlocksFit(n, b, over, prefs.autoFlush);
    }
  }

  /** The part of the bound that the blocks take. */
  function BlockBound(n: nat, b: pos, over: nat, flush: bool): nat {
    var full, last := n / b % U32, if flush then n % b else 0;
    over * ((full + (if last > 0 then 1 else 0)) % U32) + b * full + last
  }

  lemma BoundOf(srcSize: nat, prefs: Prefs, buffered: nat, b: pos, n: nat, over: nat)
    requires b == BlockSize(prefs.info.blockSizeID) && buffered < b && n == srcSize + buffered && srcSize > 0
    requires over == BH_SIZE + prefs.info.CrcSize()
    ensures CompressBound(srcSize, prefs, buffered)
         == BlockBound(n, b, over, prefs.autoFlush) + BH_SIZE + (if prefs.info.contentChecksum then BF_SIZE else 0)
  {
  }

  lemma BlocksFit(n: nat, b: pos, over: pos, flush: bool)
    ensures BlockSpace(n, b, over, flush) <= BlockBound(n, b, over, flush) <==> BlockCount(n, b, flush) < U32
  {
    hide BlockSpace, BlockBound, BlockCount;
    var k, one, last := n / b, if flush && n % b > 0 then 1 else 0, if flush then n % b else 0;
    SpaceIs(n, b, over, flush, k, one, last);
    if k + one < U32 {
      Counted(over, k + one, k);
    } else {
      Miscounted(over, b, k, one);
    }
  }

  lemma SpaceIs(n: nat, b: pos, over: nat, flush: bool, k: nat, one: nat, last: nat)
    requires k == n / b && one == (if flush && n % b > 0 then 1 else 0) && last == (if flush then n % b else 0)
    ensures BlockSpace(n, b, over, flush) == over * (k + one) + b * k + last
    ensures BlockBound(n, b, over, flush) == over * ((k % U32 + one) % U32) + b * (k % U32) + last
    ensures BlockCount(n, b, flush) == k + one
  {
    assert n == b * k + n % b && k * b == b * k;
  }

  lemma Counted(over: nat, count: nat, k: nat)
    requires k <= count < U32
    ensures k % U32 == k && count % U32 == count
  {
  }

  /** With 2^32 blocks or more, too few are counted. */
  lemma Miscounted(over: pos, b: pos, k: nat, one: nat)
    requires one <= 1 && k + one >= U32
    ensures over * ((k % U32 + one) % U32) + b * (k % U32) < over * (k + one) + b * k
  {
    var full := k % U32;
    var count := (full + one) % U32;
    if k >= U32 {
      assert count <= full + one;
      assert count + U32 <= k + one;
      Wider(b, full, k);
    } else {
      assert full == k && count == 0;
    }
    Wider(over, count, k + one);
  }

  /** The smallest source for which the bound is short: the number of blocks is 2^32 and counted as none. */
  lemma ShortBound()
    ensures var info := Info(false, false, false, 4, 0, 0);
            var n := (U32 - 1) * 0x1_0000 + 1;
            FrameSpace(n, Prefs(info, true)) == CompressBound(n, Prefs(info, true), 0) + 4 * U32
  {
  }

  lemma Wider(a: nat, x: nat, y: nat)
    requires x + U32 <= y
    ensures a * x + a * U32 <= a * y
  {
    assert a * (x + U32) == a * x + a * U32;
    assert a * (y - (x + U32)) >= 0;
    assert a * y == a * (x + U32) + a * (y - (x + U32));
  }

  /** A full block taken off n bytes. */
  lemma FullBlock(n: nat, b: pos, over: nat, flush: bool)
    requires n >= b
    ensures BlockSpace(n, b, over, flush) == over + b + BlockSpace(n - b, b, over, flush)
  {
    var q, r := (n - b) / b, (n - b) % b;
    assert n - b == q * b + r;
    assert (q + 1) * b == q * b + b;
    QuotientIs(n, b, q + 1, r);
    var k := BlockCount(n - b, b, flush);
    assert BlockCount(n, b, flush) == k + 1;
    assert over * (k + 1) == over * k + over;
  }

  lemma LastBlock(n: nat, b: pos, over: nat)
    requires 0 < n < b
    ensures BlockSpace(n, b, over, true) == over + n
    ensures BlockSpace(n, b, over, false) == 0
  {
    QuotientIs(n, b, 0, n);
  }

  // ------------------------------------------------------------------- encoder

  /** LZ4F_cctx with its LZ4 stream, for the fast levels without a prepared dictionary.  dict is
      where the stream finds the history.  The ghost fields are the block decoder that the
      compressor is good for, all the source of the frame, and what of it is in blocks. */
  class Cctx {
    const compress: (seq<byte>, seq<byte>, nat) -> Option<seq<byte>>
    const hash: seq<byte> -> nat
    ghost const dec: (seq<byte>, seq<byte>, nat) -> Option<seq<byte>>
    var prefs: Prefs
    var begun: bool
    var maxBlockSize: pos
    var maxBufferSize: nat
    var tmpBuff: array<byte>
    var tmpIn: nat
    var tmpInSize: nat
    var totalInSize: nat
    var xxh: seq<byte>
    var dict: array?<byte>
    var dictOff: nat
    var dictSize: nat
    var currentOffset: nat
    ghost var content: seq<byte>
    ghost var sent: seq<byte>

    ghost function Environment(): Env
    {
      Env(dec, hash, [])
    }

    ghost function Dict(): seq<byte>
      requires dict != null ==> dictOff + dictSize <= dict.Length
      reads `dict, `dictOff, `dictSize, dict
    {
      if dict == null then [] else dict[dictOff..dictOff + dictSize]
    }

    ghost function Buffered(): seq<byte>
      requires tmpIn + tmpInSize <= tmpBuff.Length
      reads `tmpBuff, `tmpIn, `tmpInSize, tmpBuff
    {
      tmpBuff[tmpIn..tmpIn + tmpInSize]
    }

    /** The history of the stream is the end of what is in blocks. */
    ghost predicate DictOk()
      reads `dict, `dictOff, `dictSize, `sent, dict
    {
      && (dict == null ==> dictSize == 0)
      && (dict != null ==> dictOff + dictSize <= dict.Length)
      && EndsWith(sent, Dict())
    }

    function Required(): nat
      reads `prefs
    {
      if prefs.autoFlush then if prefs.info.linked then KB64 else 0
      else prefs.info.MaxBlockSize() + if prefs.info.linked then KB128 else 0
    }

    /** The sizes of a frame that has begun. */
    ghost predicate Sized()
      reads `begun, `prefs, `maxBlockSize, `maxBufferSize, `tmpBuff, `totalInSize
    {
      && GoodCompressor(compress, dec) && GoodHash(hash)
      && begun && prefs.info.Valid() && maxBlockSize == prefs.info.MaxBlockSize()
      && Required() <= maxBufferSize <= tmpBuff.Length
      && totalInSize < U64
    }

    /** Where the buffered input is, and where the history may be. */
    ghost predicate Placed()
      reads `tmpIn, `tmpInSize, `maxBufferSize, `maxBlockSize, `prefs, `dict, `dictOff, `dictSize, `tmpBuff
    {
      && tmpIn + tmpInSize <= maxBufferSize && tmpInSize < maxBlockSize
      && (if prefs.autoFlush then tmpInSize == 0 else tmpIn + maxBlockSize <= maxBufferSize)
      && (if prefs.info.linked then dict == tmpBuff ==> dictOff + dictSize <= tmpIn else tmpIn == 0)
    }

    ghost predicate Open()
      reads this, tmpBuff, dict
    {
      && Sized() && Placed()
      && (prefs.info.linked ==> DictOk())
      && content == sent + Buffered()
      && (prefs.info.contentChecksum ==> xxh == content)
      && (prefs.info.contentSize != 0 ==> totalInSize == |content| % U64)
    }

    ghost predicate Valid()
      reads this, tmpBuff, dict
    {
      && GoodCompressor(compress, dec) && GoodHash(hash)
      && totalInSize < U64 && maxBufferSize <= tmpBuff.Length && (begun ==> Open())
    }

    constructor (compress: (seq<byte>, seq<byte>, nat) -> Option<seq<byte>>, hash: seq<byte> -> nat,
                 ghost dec: (seq<byte>, seq<byte>, nat) -> Option<seq<byte>>)
      requires GoodCompressor(compress, dec) && GoodHash(hash)
      ensures Valid() && !begun && this.compress == compress && this.hash == hash && this.dec == dec
      ensures fresh(tmpBuff) && dict == null
    {
      this.compress, this.hash, this.dec := compress, hash, dec;
      prefs := Prefs(Info(true, false, false, 4, 0, 0), false);
      begun, maxBlockSize, maxBufferSize, tmpBuff := false, 0x1_0000, 0, new byte[0];
      tmpIn, tmpInSize, totalInSize, xxh := 0, 0, 0, [];
      dict, dictOff, dictSize, currentOffset := null, 0, 0, 0;
      content, sent := [], [];
    }

    // -------------------------------------------------------------------- begin

    /** LZ4F_compressBegin: starts a frame and writes its header. */
    method Begin(dstCapacity: nat, preferences: Prefs) returns (r: Result<seq<byte>>)
      requires Valid() && preferences.info.blockSizeID in {0, 4, 5, 6, 7}
      requires preferences.info.contentSize < U64 && preferences.info.dictID < U32
      modifies this
      ensures tmpBuff == old(tmpBuff) || fresh(tmpBuff)
      ensures if dstCapacity < MAX_FH_SIZE then r == Err(DstMaxSizeTooSmall) && unchanged(this)
              else && Open() && content == sent == [] && (dict == null || dict == old(dict))
                   && prefs == Effective(preferences)
                   && r == Ok(HeaderBytes(prefs.info, hash)) && |r.value| <= MAX_FH_SIZE
    {
      hide GoodCompressor, GoodHash, HeaderBytes, EndsWith;
      if dstCapacity < MAX_FH_SIZE { return Err(DstMaxSizeTooSmall); }
      prefs := Effective(preferences);
      maxBlockSize := prefs.info.MaxBlockSize();
      Allocate();
      Start();
      r := Ok(HeaderBytes(prefs.info, hash));
    }

    method Allocate()
      requires maxBufferSize <= tmpBuff.Length
      modifies `maxBufferSize, `tmpBuff
      ensures tmpBuff == old(tmpBuff) || fresh(tmpBuff)
      ensures Required() <= maxBufferSize <= tmpBuff.Length
    {
      var requiredBuffSize := Required();
      if maxBufferSize < requiredBuffSize {
        maxBufferSize := 0;
        tmpBuff := new byte[requiredBuffSize](_ => 0);
        maxBufferSize := requiredBuffSize;
      }
    }

    method Start()
      requires GoodCompressor(compress, dec) && GoodHash(hash) && prefs.info.Valid() && totalInSize < U64
      requires maxBlockSize == prefs.info.MaxBlockSize() && Required() <= maxBufferSize <= tmpBuff.Length
      modifies `tmpIn, `tmpInSize, `xxh, `dict, `dictOff, `dictSize, `content, `sent, `begun, `totalInSize
      ensures Open() && content == sent == [] && (dict == null || dict == old(dict))
    {
      hide GoodCompressor, GoodHash, Open;
      tmpIn, tmpInSize, xxh := 0, 0, [];
      if prefs.info.linked { dict, dictOff, dictSize := null, 0, 0; }
      content, sent, begun := [], [], true;
      if prefs.info.contentSize != 0 { totalInSize := 0; }
      NothingYet();
    }

    lemma NothingYet()
      requires Sized() && tmpIn == tmpInSize == 0 && content == sent == xxh == []
      requires prefs.info.linked ==> dict == null && dictSize == 0
      requires prefs.info.contentSize != 0 ==> totalInSize == 0
      ensures Open()
    {
      hide GoodCompressor, GoodHash;
      assert Buffered() == [];
    }

    // ------------------------------------------------------------------- blocks

    /** The history can stay: the index does not overflow with n bytes more, the history is not a tiny one
        that lies elsewhere, and the n bytes of buf at off do not overlap it. */
    predicate Ordinary(buf: array<byte>, off: nat, n: nat)
      reads `currentOffset, `dict, `dictOff, `dictSize
    {
      && currentOffset + n <= 0x8000_0000
      && (dictSize == 0 || dictSize >= 4 || (dict == buf && dictOff + dictSize == off))
      && !(dict == buf && dictOff < off + n < dictOff + dictSize)
    }

    /** LZ4_compress_fast_continue on n bytes of buf at off, up to the choice of the history: a tiny
        one is dropped, and one that the source overlaps is cut.  prefix tells whether the source
        follows the history directly. */
    method ChooseDict(buf: array<byte>, off: nat, n: pos) returns (prefix: bool)
      requires DictOk() && off + n <= buf.Length
      modifies `dict, `dictOff, `dictSize, `currentOffset
      ensures DictOk() && (prefix ==> dict == buf && dictOff + dictSize == off)
      ensures old(Ordinary(buf, off, n)) ==>
                unchanged(`dict, `dictOff, `dictSize) && prefix == (dict == buf && dictOff + dictSize == off)
    {
      if currentOffset + n > 0x8000_0000 {
        currentOffset := KB64;
        if dictSize > KB64 { CutDict(KB64); }
      }
      prefix := dict == buf && dictOff + dictSize == off;
      if 0 < dictSize < 4 && !prefix {
        dict, dictOff, dictSize, prefix := buf, off, 0, true;
      }
      if dict == buf && dictOff < off + n < dictOff + dictSize {
        var size := Min(dictOff + dictSize - (off + n), KB64);
        CutDict(if size < 4 then 0 else size);
      }
    }

    /** Keeps the last k bytes of the history. */
    method CutDict(k: nat)
      requires DictOk() && k <= dictSize && dict != null
      modifies `dictOff, `dictSize
      ensures DictOk() && dictSize == k && dictOff + dictSize == old(dictOff + dictSize)
    {
      ghost var d := Dict();
      dictOff, dictSize := dictOff + dictSize - k, k;
      assert Dict() == d[|d| - k..];
    }

    method ReplaceDict(buf: array<byte>, off: nat, n: nat, ghost x: seq<byte>)
      requires off + n <= buf.Length && x == buf[off..off + n] && EndsWith(sent, x)
      modifies `dict, `dictOff, `dictSize
      ensures DictOk() && dict == buf && dictOff == off && dictSize == n
    {
      hide EndsWith;
      dict, dictOff, dictSize := buf, off, n;
    }

    /** LZ4_compress_fast_continue on n bytes of buf at off: which history h it uses, and which it
        leaves.  The table it finds matches with is not part of this. */
    method CompressContinue(buf: array<byte>, off: nat, n: pos, cap: nat) returns (c: Option<seq<byte>>,
                            ghost h: seq<byte>)
      requires DictOk() && off + n <= buf.Length
      modifies `dict, `dictOff, `dictSize, `currentOffset, `sent
      ensures EndsWith(old(sent), h) && c == compress(h, buf[off..off + n], cap)
      ensures old(Ordinary(buf, off, n)) ==>
                h == old(Dict())
                && dictOff == if old(dict == buf && dictOff + dictSize == off) then old(dictOff) else off
      ensures dict == buf && dictOff <= off && dictOff + dictSize == off + n
      ensures sent == old(sent) + buf[off..off + n] && DictOk()
    {
      hide EndsWith;
      var prefix := ChooseDict(buf, off, n);
      var x := buf[off..off + n];
      h := Dict();
      EndsMore(sent, h, x);
      EndsHere(sent, x);
      c := compress(if dict == null then [] else dict[dictOff..dictOff + dictSize], x, cap);
      currentOffset := currentOffset + n;
      sent := sent + x;
      if prefix { ExtendDict(n, h, x); } else { ReplaceDict(buf, off, n, x); }
    }

    /** The source x follows the history h in memory: together they are the new one. */
    method ExtendDict(n: nat, ghost h: seq<byte>, ghost x: seq<byte>)
      requires dict != null && dictOff + dictSize + n <= dict.Length && h == dict[dictOff..dictOff + dictSize]
      requires x == dict[dictOff + dictSize..dictOff + dictSize + n] && EndsWith(sent, h + x)
      modifies `dictSize
      ensures dictSize == old(dictSize) + n && DictOk()
    {
      hide EndsWith;
      dictSize := dictSize + n;
      assert Dict() == h + x;
    }

    lemma EndsHere(s: seq<byte>, x: seq<byte>)
      ensures EndsWith(s + x, x)
    {
    }

    /** LZ4F_makeBlock: compresses n bytes of buf at off, or leaves them as they are if they do not
        get smaller. */
    method MakeBlock(buf: array<byte>, off: nat, n: pos) returns (out: seq<byte>, ghost h: seq<byte>)
      requires Sized() && n <= maxBlockSize && off + n <= buf.Length && (prefs.info.linked ==> DictOk())
      modifies `dict, `dictOff, `dictSize, `currentOffset, `sent
      ensures |out| <= BH_SIZE + n + prefs.info.CrcSize() && sent == old(sent) + buf[off..off + n]
      ensures Decodes(Environment(), prefs.info, old(sent), out, buf[off..off + n])
      ensures if prefs.info.linked then old(Ordinary(buf, off, n)) ==> h == old(Dict()) else h == []
      ensures match compress(h, buf[off..off + n], n - 1)
              case None => out == BlockBytes(buf[off..off + n], true, prefs.info, hash)
              case Some(c) => out == BlockBytes(c, false, prefs.info, hash)
      ensures if prefs.info.linked then DictOk() && dict == buf && dictOff <= off && dictOff + dictSize == off + n
              else unchanged(`dict, `dictOff, `dictSize, `currentOffset)
    {
      hide GoodCompressor, EndsWith, Decodes;
      var c;
      h := [];
      ghost var s0 := sent;
      var block := buf[off..off + n];
      EndsHere(sent, []);
      assert sent + [] == sent;
      if prefs.info.linked {
        c, h := CompressContinue(buf, off, n, n - 1);
      } else {
        c := compress([], block, n - 1);
        sent := sent + block;
      }
      if c.None? {
        RawBlock(Environment(), prefs.info, s0, block);
        out := BlockBytes(block, true, prefs.info, hash);
      } else {
        Compressed(s0, h, block, c.value);
        out := BlockBytes(c.value, false, prefs.info, hash);
      }
    }

    lemma Compressed(s0: seq<byte>, h: seq<byte>, block: seq<byte>, c: seq<byte>)
      requires Sized() && 0 < |block| <= maxBlockSize && compress(h, block, |block| - 1) == Some(c)
      requires if prefs.info.linked then EndsWith(s0, h) else h == []
      ensures 0 < |c| < |block| && hash(c) < U32
      ensures Decodes(Environment(), prefs.info, s0, BlockBytes(c, false, prefs.info, hash), block)
    {
      hide Decodes;
      var g := if prefs.info.linked then s0[..|s0| - |h|] else [];
      assert g + h == if prefs.info.linked then [] + s0 else [];
      assert dec(g + h, c, maxBlockSize) == Some(block);
      CompressedBlock(Environment(), prefs.info, s0, c, block);
    }

    // ------------------------------------------------------------------- update

    /** Between the steps of a call: the history is kept and the buffered input lies behind it. */
    ghost predicate Between()
      reads this, tmpBuff, dict
    {
      && Sized() && tmpIn + tmpInSize <= maxBufferSize && tmpInSize < maxBlockSize
      && (prefs.autoFlush ==> tmpInSize == 0) && (tmpInSize > 0 ==> Placed())
      && (if prefs.info.linked then DictOk() && (dict == tmpBuff ==> dictOff + dictSize <= tmpIn) else tmpIn == 0)
    }

    function Over(): nat
      reads this
    {
      BH_SIZE + prefs.info.CrcSize()
    }

    /** The space the blocks of n more bytes take. */
    function Space(n: nat): nat
      reads this
    {
      BlockSpace(n, maxBlockSize, Over(), prefs.autoFlush)
    }

    /** Appends n bytes of the source to those in tmpIn. */
    method Append(src: array<byte>, off: nat, n: nat)
      requires off + n <= src.Length && src != tmpBuff && tmpIn + tmpInSize + n <= maxBufferSize <= tmpBuff.Length
      requires prefs.info.linked ==> DictOk() && (dict == tmpBuff ==> dictOff + dictSize <= tmpIn)
      modifies `tmpInSize, tmpBuff
      ensures tmpInSize == old(tmpInSize) + n && Buffered() == old(Buffered()) + src[off..off + n]
      ensures prefs.info.linked ==> DictOk()
    {
      hide EndsWith;
      var at := tmpIn + tmpInSize;
      ghost var before := tmpBuff[..];
      Copy(tmpBuff, at, src, off, n);
      SliceKept(before, tmpBuff, tmpIn, at, at, at + n);
      if prefs.info.linked && dict == tmpBuff { SliceKept(before, tmpBuff, dictOff, dictOff + dictSize, at, at + n); }
      tmpInSize := tmpInSize + n;
      assert Buffered() == tmpBuff[tmpIn..at] + tmpBuff[at..at + n];
    }

    /** out is what decodes to the part of sent that follows s0. */
    ghost predicate Emitted(s0: seq<byte>, out: seq<byte>)
      reads `sent, `prefs
    {
      s0 <= sent && Decodes(Environment(), prefs.info, s0, out, sent[|s0|..])
    }

    lemma EmittedNothing()
      ensures Emitted(sent, [])
    {
      assert sent[|sent|..] == [];
      NoBlocks(Environment(), prefs.info, sent);
    }

    lemma EmittedMore(s0: seq<byte>, out: seq<byte>, s1: seq<byte>, b: seq<byte>, x: seq<byte>)
      requires s0 <= s1 && Decodes(Environment(), prefs.info, s0, out, s1[|s0|..])
      requires sent == s1 + x && Decodes(Environment(), prefs.info, s1, b, x)
      ensures Emitted(s0, out + b)
    {
      hide Decodes;
      assert s0 + s1[|s0|..] == s1;
      assert sent[|s0|..] == s1[|s0|..] + x;
      MoreBlocks(Environment(), prefs.info, s0, out, s1[|s0|..], b, x);
    }

    /** The first step: input completes the block in tmpIn, or is put behind it. */
    method CompleteTmp(src: array<byte>, off: nat, srcSize: nat) returns (out: seq<byte>, used: nat)
      requires Open() && off + srcSize <= src.Length && src != tmpBuff && tmpInSize > 0
      modifies `tmpIn, `tmpInSize, `dict, `dictOff, `dictSize, `currentOffset, `sent, tmpBuff
      ensures Between() && used <= srcSize && (tmpInSize > 0 ==> used == srcSize)
      ensures sent + Buffered() == old(content) + src[off..off + used]
      ensures Emitted(old(sent), out)
      ensures |out| + Space(srcSize - used) <= Space(old(tmpInSize) + srcSize)
      ensures dict == old(dict) || dict == tmpBuff
    {
      hide GoodCompressor, GoodHash, EndsWith, Decodes, BlockSpace, DictOk;
      ghost var c := content;
      var sizeToCopy := maxBlockSize - tmpInSize;
      FullSpace(tmpInSize + srcSize);
      if sizeToCopy > srcSize {
        EmittedNothing();
        out, used := [], srcSize;
        Append(src, off, srcSize);
        assert sent + Buffered() == c + src[off..off + srcSize];
      } else {
        used := sizeToCopy;
        Append(src, off, sizeToCopy);
        assert sent + Buffered() == c + src[off..off + sizeToCopy];
        out := BlockOfTmp();
      }
    }

    lemma FullSpace(n: nat)
      requires Sized()
      ensures n >= maxBlockSize ==> Space(n) == Over() + maxBlockSize + Space(n - maxBlockSize)
      ensures 0 < n < maxBlockSize && prefs.autoFlush ==> Space(n) == Over() + n
      ensures Space(0) == 0
    {
      hide GoodCompressor, GoodHash, BlockSpace;
      if n >= maxBlockSize { FullBlock(n, maxBlockSize, Over(), prefs.autoFlush); }
      if 0 < n < maxBlockSize { LastBlock(n, maxBlockSize, Over()); }
      NoSpace();
    }

    lemma NoSpace()
      ensures Space(0) == 0
    {
      assert BlockCount(0, maxBlockSize, prefs.autoFlush) == 0;
    }

    /** Compresses the buffered input, which is all that tmpIn holds. */
    method BlockOfTmp() returns (out: seq<byte>)
      requires Sized() && tmpIn + tmpInSize <= maxBufferSize && 0 < tmpInSize <= maxBlockSize
      requires if prefs.info.linked then DictOk() else tmpIn == 0
      modifies `tmpIn, `tmpInSize, `dict, `dictOff, `dictSize, `currentOffset, `sent
      ensures Between() && tmpInSize == 0 && sent == old(sent + Buffered()) && Buffered() == []
      ensures Emitted(old(sent), out) && |out| <= Over() + old(tmpInSize)
      ensures tmpIn == if prefs.info.linked then old(tmpIn + tmpInSize) else 0
      ensures if prefs.info.linked then dict == tmpBuff && dictSize > 0 else dict == old(dict)
    {
      hide GoodCompressor, GoodHash, EndsWith, Decodes;
      ghost var s0, x := sent, Buffered();
      EmittedNothing();
      ghost var h;
      out, h := MakeBlock(tmpBuff, tmpIn, tmpInSize);
      EmittedMore(s0, [], s0, out, x);
      assert [] + out == out;
      if prefs.info.linked { tmpIn := tmpIn + tmpInSize; }
      tmpInSize := 0;
    }

    /** One more block from the source, behind those in out. */
    method BlockOfSource(src: array<byte>, off: nat, pos: nat, n: pos, out: seq<byte>, ghost s0: seq<byte>)
      returns (r: seq<byte>)
      requires Between() && tmpInSize == 0 && off <= pos && pos + n <= src.Length && n <= maxBlockSize && src != tmpBuff
      requires sent == s0 + src[off..pos] && Emitted(s0, out)
      modifies `dict, `dictOff, `dictSize, `currentOffset, `sent
      ensures sent == s0 + src[off..pos + n] && Emitted(s0, r) && |r| <= |out| + Over() + n
      ensures Between()
      ensures if prefs.info.linked then dict == src && dictSize > 0 else unchanged(`dict, `dictOff, `dictSize)
    {
      hide GoodCompressor, GoodHash, EndsWith, Decodes;
      ghost var s1, x := sent, src[pos..pos + n];
      assert src[off..pos + n] == src[off..pos] + x;
      var b; ghost var h;
      b, h := MakeBlock(src, pos, n);
      EmittedMore(s0, out, s1, b, x);
      r := out + b;
    }

    /** Compresses full blocks straight from the source. */
    method FullBlocks(src: array<byte>, off: nat, end: nat) returns (out: seq<byte>, pos: nat)
      requires Between() && tmpInSize == 0 && off <= end <= src.Length && src != tmpBuff
      modifies `dict, `dictOff, `dictSize, `currentOffset, `sent
      ensures off <= pos <= end && end - pos < maxBlockSize
      ensures sent == old(sent) + src[off..pos] && Emitted(old(sent), out)
      ensures |out| + Space(end - pos) <= Space(end - off)
      ensures Between()
      ensures if off < pos && prefs.info.linked then dict == src && dictSize > 0
              else unchanged(`dict, `dictOff, `dictSize)
    {
      hide GoodCompressor, GoodHash, EndsWith, Decodes, BlockSpace, Emitted, DictOk;
      ghost var s0 := sent;
      EmittedNothing();
      out, pos := [], off;
      while end - pos >= maxBlockSize
        invariant off <= pos <= end && Between()
        invariant sent == s0 + src[off..pos] && Emitted(s0, out)
        invariant |out| + Space(end - pos) <= Space(end - off)
        invariant if off < pos && prefs.info.linked then dict == src && dictSize > 0
                  else unchanged(`dict, `dictOff, `dictSize)
      {
        FullSpace(end - pos);
        out := BlockOfSource(src, off, pos, maxBlockSize, out, s0);
        pos := pos + maxBlockSize;
      }
    }

    /** Compresses blocks straight from the source: full ones and, with autoFlush, what is left. */
    method BlocksOfSource(src: array<byte>, off: nat, end: nat) returns (out: seq<byte>, pos: nat)
      requires Between() && tmpInSize == 0 && off <= end <= src.Length && src != tmpBuff
      modifies `dict, `dictOff, `dictSize, `currentOffset, `sent
      ensures off <= pos <= end && end - pos < maxBlockSize && (prefs.autoFlush ==> pos == end)
      ensures sent == old(sent) + src[off..pos] && Emitted(old(sent), out)
      ensures |out| <= Space(end - off)
      ensures Between()
      ensures if off < pos && prefs.info.linked then dict == src && dictSize > 0
              else unchanged(`dict, `dictOff, `dictSize)
    {
      hide GoodCompressor, GoodHash, EndsWith, Decodes, BlockSpace, Emitted;
      ghost var s0 := sent;
      out, pos := FullBlocks(src, off, end);
      FullSpace(end - pos);
      if prefs.autoFlush && pos < end {
        out := BlockOfSource(src, off, pos, end - pos, out, s0);
        pos := end;
      }
    }

    /** LZ4_saveDict to tmpBuff: the last 64 KB of the history move there. */
    method SaveDict() returns (realDictSize: nat)
      requires DictOk() && tmpBuff.Length >= KB64
      modifies `dict, `dictOff, `dictSize, tmpBuff
      ensures DictOk() && dict == tmpBuff && dictOff == 0 && realDictSize == dictSize == Min(old(dictSize), KB64)
    {
      realDictSize := Min(dictSize, KB64);
      CutTo(realDictSize);
      var kept := if dict == null then [] else dict[dictOff..dictOff + dictSize];
      MoveDict(kept);
    }

    method CutTo(k: nat)
      requires DictOk() && k <= dictSize
      modifies `dictOff, `dictSize
      ensures DictOk() && dictSize == k
    {
      if dict != null { CutDict(k); }
    }

    /** Copies the history to the beginning of tmpBuff. */
    method MoveDict(kept: seq<byte>)
      requires DictOk() && kept == Dict() && dictSize <= tmpBuff.Length
      modifies `dict, `dictOff, tmpBuff
      ensures DictOk() && dict == tmpBuff && dictOff == 0
    {
      hide EndsWith;
      CopyIn(tmpBuff, 0, kept, 0, dictSize);
      assert kept[0..dictSize] == kept;
      dict, dictOff := tmpBuff, 0;
      assert Dict() == kept;
    }

    /** The last steps: the history is saved when it lies in the source, and when tmpIn gets near
        the end of tmpBuff. */
    method SaveHistory(fromSource: bool, stableSrc: bool) returns (ok: bool)
      requires Between() && (fromSource ==> tmpInSize == 0 && (prefs.info.linked ==> dict != tmpBuff && dictSize > 0))
      modifies `tmpIn, `dict, `dictOff, `dictSize, tmpBuff
      ensures ok && Between() && Placed() && Buffered() == old(Buffered())
      ensures dictSize == old(dictSize) || dictSize == Min(old(dictSize), KB64)
      ensures dict == old(dict) || dict == tmpBuff
      ensures prefs.info.linked && fromSource && !stableSrc ==> dict == tmpBuff
    {
      hide GoodCompressor, GoodHash, EndsWith, DictOk;
      ok := true;
      if prefs.info.linked && fromSource {
        if stableSrc {
          tmpIn := 0;
        } else {
          var realDictSize := SaveDict();
          if realDictSize == 0 { return false; }
          tmpIn := realDictSize;
        }
      }
      if tmpIn + maxBlockSize > maxBufferSize && !prefs.autoFlush {
        var realDictSize := SaveDict();
        tmpIn := realDictSize;
      }
    }

    /** The blocks of a call: first what is buffered, then from the source; pos is what the source
        is used up to. */
    method Blocks(src: array<byte>, off: nat, end: nat) returns (out: seq<byte>, pos: nat, fromSource: bool)
      requires Open() && off <= end <= src.Length && src != tmpBuff
      modifies `tmpIn, `tmpInSize, `dict, `dictOff, `dictSize, `currentOffset, `sent, tmpBuff
      ensures Between() && off <= pos <= end && end - pos < maxBlockSize && (prefs.autoFlush ==> pos == end)
      ensures (tmpInSize > 0 ==> pos == end) && sent + Buffered() == content + src[off..pos]
      ensures Emitted(old(sent), out) && |out| <= Space(old(tmpInSize) + (end - off))
      ensures fromSource ==> tmpInSize == 0 && (prefs.info.linked ==> dict == src && dictSize > 0)
      ensures dict == old(dict) || dict == tmpBuff || (fromSource && prefs.info.linked)
    {
      hide GoodCompressor, GoodHash, EndsWith, Decodes, BlockSpace, Emitted;
      ghost var s0, c, t0 := sent, content, tmpInSize;
      out, pos, fromSource := [], off, false;
      EmittedNothing();
      assert src[off..off] == [];
      if tmpInSize > 0 {
        var used;
        out, used := CompleteTmp(src, off, end - off);
        pos := off + used;
      }
      if pos < end {
        out, pos, fromSource := BlocksAfter(src, off, pos, end, out, s0, c);
      }
    }

    /** The blocks that follow the one from tmpIn. */
    method BlocksAfter(src: array<byte>, ghost off: nat, pos0: nat, end: nat, out0: seq<byte>, ghost s0: seq<byte>,
                       ghost c: seq<byte>)
      returns (out: seq<byte>, pos: nat, fromSource: bool)
      requires Between() && tmpInSize == 0 && off <= pos0 < end <= src.Length && src != tmpBuff
      requires Emitted(s0, out0) && sent + Buffered() == c + src[off..pos0]
      modifies `dict, `dictOff, `dictSize, `currentOffset, `sent
      ensures Between() && pos0 <= pos <= end && end - pos < maxBlockSize && (prefs.autoFlush ==> pos == end)
      ensures sent + Buffered() == c + src[off..pos]
      ensures Emitted(s0, out) && |out| <= |out0| + Space(end - pos0)
      ensures fromSource && prefs.info.linked ==> dict == src && dictSize > 0
      ensures !(fromSource && prefs.info.linked) ==> dict == old(dict)
    {
      hide GoodCompressor, GoodHash, EndsWith, Decodes, BlockSpace;
      ghost var s1 := sent;
      assert Buffered() == [] && s1 + [] == s1;
      out, pos := BlocksOfSource(src, pos0, end);
      ghost var x, y := src[off..pos0], src[pos0..pos];
      Joined(s0, out0, s1, out, c, x, y);
      assert src[off..pos] == x + y;
      out, fromSource := out0 + out, pos0 < pos;
    }

    lemma Joined(s0: seq<byte>, out: seq<byte>, s1: seq<byte>, b: seq<byte>, c: seq<byte>, x: seq<byte>, y: seq<byte>)
      requires s0 <= s1 && Decodes(Environment(), prefs.info, s0, out, s1[|s0|..]) && Emitted(s1, b)
      requires tmpIn + tmpInSize <= tmpBuff.Length && Buffered() == []
      requires s1 == c + x && sent == s1 + y
      ensures Emitted(s0, out + b) && sent + Buffered() == c + (x + y)
    {
      hide Decodes;
      assert sent[|s1|..] == y;
      EmittedMore(s0, out, s1, b, y);
    }

    /** The content checksum and the total of a call. */
    method CountIn(src: array<byte>, off: nat, srcSize: nat)
      requires off + srcSize <= src.Length && totalInSize < U64
      modifies `xxh, `totalInSize, `content
      ensures content == old(content) + src[off..off + srcSize] && totalInSize < U64
      ensures prefs.info.contentChecksum && old(xxh == content) ==> xxh == content
      ensures old(totalInSize) == old(|content|) % U64 ==> totalInSize == |content| % U64
    {
      if prefs.info.contentChecksum { xxh := xxh + src[off..off + srcSize]; }
      totalInSize := (totalInSize + srcSize) % U64;
      content := content + src[off..off + srcSize];
    }

    /** The buffers after a call: what the blocks did not use is put in tmpIn. */
    method Feed(src: array<byte>, off: nat, srcSize: nat, stableSrc: bool) returns (ok: bool, out: seq<byte>)
      requires Open() && off + srcSize <= src.Length && src != tmpBuff
      modifies `tmpIn, `tmpInSize, `dict, `dictOff, `dictSize, `currentOffset, `sent, tmpBuff
      ensures ok && Sized() && Placed() && (prefs.info.linked ==> DictOk())
      ensures sent + Buffered() == content + src[off..off + srcSize]
      ensures Emitted(old(sent), out) && |out| <= Space(old(tmpInSize) + srcSize)
      ensures dict == old(dict) || dict == tmpBuff || (dict == src && stableSrc)
    {
      hide GoodCompressor, GoodHash, EndsWith, Decodes, BlockSpace, DictOk, Buffered;
      ghost var c := content;
      var pos, fromSource;
      out, pos, fromSource := Blocks(src, off, off + srcSize);
      ghost var mid, s1, b1 := pos, sent, Buffered();
      ok := SaveHistory(fromSource, stableSrc);
      if pos < off + srcSize {
        Append(src, pos, off + srcSize - pos);
      }
      ghost var x, y := src[off..mid], src[mid..off + srcSize];
      assert src[off..off + srcSize] == x + y;
      assert Buffered() == b1 + y;
      Regroup(s1, b1, c, x, y);
    }

    lemma Regroup(s: seq<byte>, b: seq<byte>, c: seq<byte>, x: seq<byte>, y: seq<byte>)
      requires s + b == c + x
      ensures s + (b + y) == c + (x + y)
    {
      assert s + (b + y) == (s + b) + y;
      assert c + (x + y) == (c + x) + y;
    }

    lemma UpdateRoom(srcSize: nat)
      requires Valid() && begun
      ensures BlockCount(tmpInSize + srcSize, maxBlockSize, prefs.autoFlush) < U32 ==>
                Space(tmpInSize + srcSize) <= CompressBound(srcSize, prefs, tmpInSize)
    {
      hide GoodCompressor, GoodHash, EndsWith, BlockSpace, CompressBound, BlockCount;
      BoundIsSpace(srcSize, prefs, tmpInSize);
    }

    /** LZ4F_compressUpdate.  It fails only before a frame has begun, or for want of room. */
    method Update(dstCapacity: nat, src: array<byte>, off: nat, srcSize: nat, stableSrc: bool)
      returns (r: Result<seq<byte>>)
      requires Valid() && off + srcSize <= src.Length && src != tmpBuff
      modifies this, tmpBuff
      ensures unchanged(`prefs, `tmpBuff, `begun)
      ensures if !begun then r == Err(Generic) && unchanged(this)
              else if dstCapacity < CompressBound(srcSize, prefs, old(tmpInSize)) then
                r == Err(DstMaxSizeTooSmall) && unchanged(this)
              else && r.Ok? && Open() && content == old(content) + src[off..off + srcSize]
                   && Emitted(old(sent), r.value) && |r.value| <= Space(old(tmpInSize) + srcSize)
                   && (BlockCount(old(tmpInSize) + srcSize, maxBlockSize, prefs.autoFlush) < U32 ==>
                         |r.value| <= dstCapacity)
      ensures dict == old(dict) || dict == tmpBuff || (dict == src && stableSrc)
    {
      hide GoodCompressor, GoodHash, EndsWith, Decodes, BlockSpace, CompressBound, BlockCount;
      if begun { UpdateRoom(srcSize); }
      if !begun { return Err(Generic); }
      if dstCapacity < CompressBound(srcSize, prefs, tmpInSize) { return Err(DstMaxSizeTooSmall); }
      var ok, out := Feed(src, off, srcSize, stableSrc);
      if !ok { return Err(Generic); }
      CountIn(src, off, srcSize);
      r := Ok(out);
    }

    // ---------------------------------------------------------------- flush, end

    /** LZ4F_flush: what is buffered becomes a block. */
    method Flush(dstCapacity: nat) returns (r: Result<seq<byte>>)
      requires Valid()
      modifies this, tmpBuff
      ensures unchanged(`prefs, `tmpBuff, `begun, `content, `totalInSize, `xxh)
      ensures Valid()
      ensures if old(tmpInSize) == 0 then r == Ok([]) && unchanged(this)
              else if !begun then r == Err(Generic) && unchanged(this)
              else if dstCapacity < old(tmpInSize) + BH_SIZE + BF_SIZE then
                r == Err(DstMaxSizeTooSmall) && unchanged(this)
              else && r.Ok? && |r.value| <= old(tmpInSize) + BH_SIZE + BF_SIZE
                   && sent == content && tmpInSize == 0 && Emitted(old(sent), r.value)
      ensures dict == old(dict) || dict == tmpBuff
    {
      hide GoodCompressor, GoodHash, EndsWith, Decodes;
      if tmpInSize == 0 { return Ok([]); }
      if !begun { return Err(Generic); }
      if dstCapacity < tmpInSize + BH_SIZE + BF_SIZE { return Err(DstMaxSizeTooSmall); }
      var out := BlockOfTmp();
      assert sent + [] == sent;
      if tmpIn + maxBlockSize > maxBufferSize {
        var realDictSize := SaveDict();
        tmpIn := realDictSize;
      }
      r := Ok(out);
    }

    /** The room that is enough to end the frame. */
    function EndRoom(): nat
      reads this
    {
      (if tmpInSize == 0 then 0 else tmpInSize + BH_SIZE + BF_SIZE) + BH_SIZE
      + (if prefs.info.contentChecksum then BF_SIZE else 0)
    }

    /** LZ4F_compressEnd: flushes, and ends the frame.  It fails for want of room, and when the size
        announced is not that of the content. */
    method End(dstCapacity: nat) returns (r: Result<seq<byte>>, ghost blocks: seq<byte>)
      requires Open()
      modifies this, tmpBuff
      ensures Valid() && tmpBuff == old(tmpBuff) && prefs == old(prefs) && content == old(content)
      ensures r.Ok? ==> && !begun && |r.value| <= dstCapacity && sent == content && Emitted(old(sent), blocks)
                        && hash(content) < U32 && r.value == blocks + EndBytes(content, prefs.info, hash)
                        && At(prefs.info, content).rem == 0
      ensures dstCapacity >= old(EndRoom()) ==>
                if prefs.info.contentSize == 0 || prefs.info.contentSize == |content| % U64 then r.Ok?
                else r == Err(FrameSizeWrong)
      ensures dict == old(dict) || dict == tmpBuff
    {
      hide GoodCompressor, EndsWith, Decodes;
      EmittedNothing();
      r := Flush(dstCapacity);
      if r.Err? { return r, []; }
      blocks := r.value;
      var left := dstCapacity - |r.value|;
      assert tmpInSize == 0 && sent + [] == sent;
      if left < 4 { return Err(DstMaxSizeTooSmall), blocks; }
      if prefs.info.contentChecksum && left < 8 { return Err(DstMaxSizeTooSmall), blocks; }
      assert hash(content) < U32;
      r := Ok(r.value + EndBytes(if prefs.info.contentChecksum then xxh else [], prefs.info, hash));
      begun, maxBufferSize := false, 0;
      if prefs.info.contentSize != 0 && prefs.info.contentSize != totalInSize {
        r := Err(FrameSizeWrong);
      }
    }
  }

  // -------------------------------------------------------------- whole frames

  /** The smallest block size, up to the one asked for, that holds the source. */
  function OptimalID(requested: nat, srcSize: nat): (id: nat)
    ensures id <= requested && (requested <= 7 ==> id == requested || 4 <= id)
    ensures id != requested ==> srcSize <= BlockSize(id)
    ensures id > 4 ==> srcSize > BlockSize(id - 1)
    decreases requested
  {
    if requested <= 4 || srcSize > BlockSize(requested - 1) then requested else OptimalID(requested - 1, srcSize)
  }

  lemma {:induction false} OptimalSkips(requested: nat, proposed: nat, srcSize: nat)
    requires 4 <= proposed < requested <= 7 && srcSize <= BlockSize(proposed)
    ensures OptimalID(requested, srcSize) == OptimalID(proposed, srcSize)
    decreases requested
  {
    if proposed + 1 < requested { OptimalSkips(requested - 1, proposed, srcSize); }
  }

  /** LZ4F_optimalBSID. */
  method OptimalBSID(requested: nat, srcSize: nat) returns (id: nat)
    requires requested in {0, 4, 5, 6, 7}
    ensures id == OptimalID(requested, srcSize)
  {
    var proposed, maxBlockSize := 4, 0x1_0000;
    while requested > proposed
      invariant 4 <= proposed <= 7 && (requested == 0 || proposed <= requested) && maxBlockSize == BlockSize(proposed)
      invariant proposed > 4 ==> srcSize > BlockSize(proposed - 1)
    {
      if srcSize <= maxBlockSize {
        OptimalSkips(requested, proposed, srcSize);
        return proposed;
      }
      proposed, maxBlockSize := proposed + 1, maxBlockSize * 4;
    }
    id := requested;
  }

  /** How a frame was fed: n bytes at a time, then perhaps a flush. */
  datatype Piece = Piece(n: nat, stableSrc: bool, flush: bool)

  /** What a frame has written so far decodes to what is in blocks. */
  ghost predicate Written(c: Cctx, blocks: seq<byte>)
    reads c
  {
    Decodes(c.Environment(), c.prefs.info, [], blocks, c.sent)
  }

  lemma WrittenMore(c: Cctx, s0: seq<byte>, blocks: seq<byte>, more: seq<byte>)
    requires Decodes(c.Environment(), c.prefs.info, [], blocks, s0) && c.Emitted(s0, more)
    ensures Written(c, blocks + more)
  {
    hide Decodes;
    var x := c.sent[|s0|..];
    assert s0 + x == c.sent && [] + s0 == s0;
    MoreBlocks(c.Environment(), c.prefs.info, [], blocks, s0, more, x);
  }

  /** A frame that has ended decodes to its content. */
  lemma FinishedFrame(c: Cctx, blocks: seq<byte>)
    requires c.prefs.info.Valid() && Written(c, blocks) && c.sent == c.content && c.hash(c.content) < U32
    requires At(c.prefs.info, c.content).rem == 0
    ensures IsFrame(c.Environment(), HeaderBytes(c.prefs.info, c.hash) + blocks
                                     + EndBytes(c.content, c.prefs.info, c.hash),
                    c.content, c.prefs.info.contentSize > 0)
  {
    hide Decodes, HeaderBytes, EndBytes, IsFrame;
    WholeFrame(c.Environment(), c.prefs.info, blocks, c.content);
  }

  /** How much of n bytes the first k pieces feed. */
  function Fed(pieces: seq<Piece>, k: nat, n: nat): (r: nat)
    requires k <= |pieces|
    ensures r <= n
  {
    if k == 0 then 0 else Min(n, Fed(pieces, k - 1, n) + pieces[k - 1].n)
  }

  /** One piece: an update with the room it asks for, then perhaps a flush. */
  method EncodePiece(c: Cctx, src: array<byte>, pos: nat, n: nat, piece: Piece, blocks: seq<byte>)
    returns (r: seq<byte>)
    requires c.Open() && pos + n <= src.Length && src != c.tmpBuff && Written(c, blocks)
    modifies c, c.tmpBuff
    ensures c.Open() && c.prefs == old(c.prefs) && c.tmpBuff == old(c.tmpBuff) && Written(c, r)
    ensures c.content == old(c.content) + src[pos..pos + n]
    ensures c.dict == old(c.dict) || c.dict == c.tmpBuff || c.dict == src
  {
    hide GoodCompressor, GoodHash, EndsWith, Decodes, CompressBound, BlockSpace, Cctx.Emitted;
    ghost var s0 := c.sent;
    var u := c.Update(CompressBound(n, c.prefs, c.tmpInSize), src, pos, n, piece.stableSrc);
    WrittenMore(c, s0, blocks, u.value);
    r := blocks + u.value;
    if piece.flush {
      ghost var s1, r1 := c.sent, r;
      c.EmittedNothing();
      var f := c.Flush(c.tmpInSize + BH_SIZE + BF_SIZE);
      WrittenMore(c, s1, r1, f.value);
      r := r + f.value;
    }
  }

  lemma Started(c: Cctx, preferences: Prefs) returns (prefs: Prefs)
    requires c.Open() && c.prefs == Effective(preferences) && c.sent == []
    ensures prefs == c.prefs && prefs.info.Valid() && prefs.info == Asked(preferences.info)
    ensures Written(c, [])
  {
    NoBlocks(c.Environment(), c.prefs.info, []);
    prefs := c.prefs;
  }

  /** Encodes pieces of src, one after the other, as one frame; each call has the room it asks for
      and no more.  The frame says what was asked for and decodes to all that was fed, whatever follows
      it, on a new context or on any, if the size was announced; it fails only when another size was
      announced. */
  method EncodeFrame(c: Cctx, preferences: Prefs, src: array<byte>, pieces: seq<Piece>)
    returns (r: Result<seq<byte>>)
    requires c.Valid() && preferences.info.blockSizeID in {0, 4, 5, 6, 7}
    requires preferences.info.contentSize < U64 && preferences.info.dictID < U32
    requires src != c.tmpBuff
    modifies c, c.tmpBuff
    ensures var n := Fed(pieces, |pieces|, src.Length);
            if preferences.info.contentSize == 0 || preferences.info.contentSize == n % U64
            then && r.Ok? && IsFrame(c.Environment(), r.value, old(src[..n]), preferences.info.contentSize > 0)
                 && Announces(r.value, c.hash, Asked(preferences.info))
            else r == Err(FrameSizeWrong)
  {
    hide GoodCompressor, GoodHash, EndsWith, Decodes, HeaderBytes, EndBytes, IsFrame, Cctx.Emitted, Written,
      Announces, Cctx.Open, Cctx.Valid, Effective;
    var h := c.Begin(MAX_FH_SIZE, preferences);
    var blocks, pos, i := [], 0, 0;
    ghost var prefs := Started(c, preferences);
    while i < |pieces|
      invariant i <= |pieces| && pos == Fed(pieces, i, src.Length)
      invariant c.Open() && c.prefs == prefs && Written(c, blocks)
      invariant c.content == src[..pos] && src[..] == old(src[..])
      invariant src != c.tmpBuff && (c.tmpBuff == old(c.tmpBuff) || fresh(c.tmpBuff))
    {
      var n := Min(pieces[i].n, src.Length - pos);
      blocks := EncodePiece(c, src, pos, n, pieces[i], blocks);
      assert src[..pos + n] == src[..pos] + src[pos..pos + n];
      pos, i := pos + n, i + 1;
    }
    r := EncodeEnd(c, h.value, blocks);
  }

  /** The end of a frame, with the room it asks for. */
  method EncodeEnd(c: Cctx, h: seq<byte>, blocks: seq<byte>) returns (r: Result<seq<byte>>)
    requires c.Open() && Written(c, blocks) && c.prefs.info.Valid() && h == HeaderBytes(c.prefs.info, c.hash)
    modifies c, c.tmpBuff
    ensures var info := old(c.prefs.info);
            if info.contentSize == 0 || info.contentSize == |old(c.content)| % U64
            then && r.Ok? && IsFrame(c.Environment(), r.value, old(c.content), info.contentSize > 0)
                 && Announces(r.value, c.hash, info)
            else r == Err(FrameSizeWrong)
  {
    hide GoodCompressor, GoodHash, EndsWith, Decodes, HeaderBytes, EndBytes, IsFrame, Cctx.Emitted;
    ghost var s1 := c.sent;
    var e; ghost var last;
    e, last := c.End(c.EndRoom());
    if e.Err? { return e; }
    WrittenMore(c, s1, blocks, last);
    FinishedFrame(c, blocks + last);
    r := Ok(h + blocks + e.value);
    assert r.value == h + (blocks + last) + EndBytes(c.content, c.prefs.info, c.hash);
    assert r.value == h + (blocks + e.value);
    HeaderAnnounces(c.prefs.info, c.hash, blocks + e.value);
  }

  /** LZ4F_compressFrameBound. */
  function CompressFrameBound(srcSize: nat, prefs: Prefs): nat {
    MAX_FH_SIZE + CompressBound(srcSize, prefs.(autoFlush := true), 0)
  }

  /** The preferences a whole source is compressed with: the size is announced if any was, blocks are
      no larger than they need to be, and a single block needs no history. */
  function FramePrefs(p: Prefs, srcSize: nat): Prefs {
    var id := OptimalID(p.info.blockSizeID, srcSize);
    var size := if p.info.contentSize != 0 then srcSize else 0;
    Prefs(p.info.(contentSize := size, blockSizeID := id, linked := p.info.linked && srcSize > BlockSize(id)), true)
  }

  /** The number of blocks of a whole source fits in 32 bits: it does up to almost 2^48 bytes. */
  predicate Countable(srcSize: nat, prefs: Prefs) {
    BlockCount(srcSize, BlockSize(prefs.info.blockSizeID), true) < U32
  }

  /** The bound leaves room for the blocks of a whole source and for the end of its frame. */
  lemma FrameRoom(srcSize: nat, prefs: Prefs)
    requires Countable(srcSize, prefs) && Effective(prefs).info.Valid() && prefs.autoFlush
    ensures FrameSpace(srcSize, Effective(prefs)) <= CompressBound(srcSize, prefs, 0)
    ensures CompressBound(srcSize, prefs, 0) == CompressBound(srcSize, Effective(prefs), 0)
  {
    hide BlockSpace, BlockCount, BlockBound;
    BoundIsSpace(srcSize, Effective(prefs), 0);
  }

  /** LZ4F_compressFrame_usingCDict without a dictionary: a whole source in a single step.  The room
      of the bound is enough, if the number of blocks fits in 32 bits, and the frame decodes to the
      source, whatever follows it, on a new context or on any, if a size was asked for. */
  method CompressFrame(c: Cctx, dstCapacity: nat, src: array<byte>, off: nat, srcSize: nat, preferences: Prefs)
    returns (r: Result<seq<byte>>)
    requires c.Valid() && preferences.info.blockSizeID in {0, 4, 5, 6, 7} && preferences.info.dictID < U32
    requires off + srcSize <= src.Length && src != c.tmpBuff
    requires srcSize < U64 && Countable(srcSize, FramePrefs(preferences, srcSize))
    modifies c, c.tmpBuff
    ensures if dstCapacity < CompressFrameBound(srcSize, FramePrefs(preferences, srcSize)) then
              r == Err(DstMaxSizeTooSmall)
            else && r.Ok? && |r.value| <= dstCapacity
                 && IsFrame(c.Environment(), r.value, old(src[off..off + srcSize]),
                            preferences.info.contentSize > 0 && srcSize > 0)
                 && Announces(r.value, c.hash, AskedWhole(preferences.info, srcSize))
  {
    hide GoodCompressor, GoodHash, EndsWith, Decodes, HeaderBytes, EndBytes, IsFrame, CompressBound, BlockSpace,
      BlockCount, Countable;
    var prefs := preferences;
    if prefs.info.contentSize != 0 { prefs := prefs.(info := prefs.info.(contentSize := srcSize)); }
    var id := OptimalBSID(prefs.info.blockSizeID, srcSize);
    prefs := Prefs(prefs.info.(blockSizeID := id), true);
    if srcSize <= BlockSize(id) { prefs := prefs.(info := prefs.info.(linked := false)); }
    assert prefs == FramePrefs(preferences, srcSize);
    if dstCapacity < CompressFrameBound(srcSize, prefs) { return Err(DstMaxSizeTooSmall); }
    r := EncodeWhole(c, dstCapacity, src, off, srcSize, prefs);
  }

  method EncodeWhole(c: Cctx, dstCapacity: nat, src: array<byte>, off: nat, srcSize: nat, prefs: Prefs)
    returns (r: Result<seq<byte>>)
    requires c.Valid() && prefs.info.blockSizeID in {0, 4, 5, 6, 7} && prefs.info.dictID < U32 && prefs.autoFlush
    requires prefs.info.contentSize in {0, srcSize} && srcSize < U64
    requires off + srcSize <= src.Length && src != c.tmpBuff && Countable(srcSize, prefs)
    requires dstCapacity >= MAX_FH_SIZE + CompressBound(srcSize, prefs, 0)
    modifies c, c.tmpBuff
    ensures r.Ok? && |r.value| <= dstCapacity
    ensures IsFrame(c.Environment(), r.value, old(src[off..off + srcSize]), prefs.info.contentSize > 0)
    ensures Announces(r.value, c.hash, Asked(prefs.info))
  {
    hide GoodCompressor, GoodHash, EndsWith, Decodes, HeaderBytes, EndBytes, IsFrame;
    hide CompressBound, BlockSpace, BlockCount, Countable, Written;
    ghost var x := src[off..off + srcSize];
    FrameRoom(srcSize, prefs);
    var h := c.Begin(dstCapacity, prefs);
    var body; ghost var blocks;
    body, blocks := WholeBody(c, dstCapacity - |h.value|, src, off, srcSize);
    r := Ok(h.value + body);
    FinishedFrame(c, blocks);
    assert r.value == HeaderBytes(c.prefs.info, c.hash) + blocks + EndBytes(c.content, c.prefs.info, c.hash);
    HeaderAnnounces(c.prefs.info, c.hash, body);
  }

  /** The blocks of a whole source, and the end of the frame. */
  method WholeBody(c: Cctx, room: nat, src: array<byte>, off: nat, srcSize: nat)
    returns (body: seq<byte>, ghost blocks: seq<byte>)
    requires c.Open() && c.content == c.sent == [] && c.prefs.autoFlush && c.prefs.info.contentSize in {0, srcSize}
    requires off + srcSize <= src.Length && src != c.tmpBuff && srcSize < U64
    requires room >= CompressBound(srcSize, c.prefs, 0) >= FrameSpace(srcSize, c.prefs)
    modifies c, c.tmpBuff
    ensures c.prefs == old(c.prefs) && |body| <= room && c.hash(c.content) < U32
    ensures c.content == old(src[off..off + srcSize]) && c.sent == c.content && Written(c, blocks)
    ensures body == blocks + EndBytes(c.content, c.prefs.info, c.hash) && At(c.prefs.info, c.content).rem == 0
  {
    hide GoodCompressor, GoodHash, EndsWith, Decodes, EndBytes, CompressBound, BlockSpace, BlockCount, Cctx.Emitted;
    ghost var x := src[off..off + srcSize];
    NoBlocks(c.Environment(), c.prefs.info, []);
    assert c.tmpInSize == |c.Buffered()| == 0;
    var u := c.Update(room, src, off, srcSize, true);
    WrittenMore(c, [], [], u.value);
    assert [] + u.value == u.value && [] + x == x;
    ghost var s1 := c.sent;
    var e; ghost var last;
    e, last := c.End(room - |u.value|);
    WrittenMore(c, s1, u.value, last);
    body, blocks := u.value + e.value, u.value + last;
    ghost var end := EndBytes(c.content, c.prefs.info, c.hash);
    assert u.value + (last + end) == blocks + end;
  }
}
