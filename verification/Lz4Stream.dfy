/** Compression contexts used again and again: one-shot calls that reuse the hash table
    without clearing it, and streams of linked blocks, with the decoder's stream state. */
module Lz4Stream {
  import opened Lz4Format
  import opened Lz4Sequences
  import opened Lz4Parse
  import opened Lz4Compressor
  import opened Lz4Decoder

  const GB1 := 0x4000_0000

  datatype TableType = ClearedTable | ByU32 | ByU16

  /** The acceleration that is used for the one asked for. */
  function Acceleration(asked: int): (a: nat)
    ensures a >= 1
  {
    if asked < 1 then 1 else asked
  }

  /** LZ4_stream_t: the fields the noDict and prefix modes use.  The hash table keeps its
      entries between calls; dictionary is the position, in the caller's memory, of the
      last dictSize bytes compressed, or None before any. */
  class Stream {
    const hashTable: array<nat>
    const hash16: Hash
    const hash32: Hash
    var currentOffset: nat
    var tableType: TableType
    var dictSize: nat
    var dictionary: Option<nat>

    /** What holds between any two calls, whatever they were. */
    ghost predicate Valid()
      reads this, hashTable
    {
      && (forall s: seq<byte> :: hash16(s) < hashTable.Length)
      && (forall s: seq<byte> :: hash32(s) < hashTable.Length)
      && currentOffset < U32
      && (forall k :: 0 <= k < hashTable.Length ==> hashTable[k] <= currentOffset)
      && (tableType == ClearedTable ==> currentOffset == 0)
    }

    /** LZ4_initStream. */
    constructor (size: nat, hash16: Hash, hash32: Hash)
      requires forall s: seq<byte> :: hash16(s) < size && hash32(s) < size
      ensures Valid() && fresh(hashTable) && hashTable.Length == size
      ensures this.hash16 == hash16 && this.hash32 == hash32
      ensures currentOffset == 0 && dictSize == 0 && dictionary == None && tableType == ClearedTable
    {
      hashTable := new nat[size](_ => 0);
      this.hash16, this.hash32 := hash16, hash32;
      currentOffset, tableType, dictSize, dictionary := 0, ClearedTable, 0, None;
    }

    /** The table serves a call of this size and type as it is. */
    ghost predicate Keeps(inputSize: nat, newType: TableType)
      reads this
    {
      tableType == ClearedTable ||
      (tableType == newType && inputSize < 4096
       && !(newType == ByU16 && currentOffset + inputSize >= 0xFFFF)
       && !(newType == ByU32 && currentOffset > GB1))
    }

    /** The table and the index of the first byte for that call. */
    ghost function NextTable(inputSize: nat, newType: TableType): (t: seq<nat>)
      reads this, hashTable
      ensures |t| == hashTable.Length
    {
      if Keeps(inputSize, newType) then hashTable[..] else seq(hashTable.Length, _ => 0)
    }

    ghost function NextOffset(inputSize: nat, newType: TableType): nat
      reads this
    {
      if !Keeps(inputSize, newType) || currentOffset == 0 then 0
      else if newType == ByU32 then currentOffset + KB64 else currentOffset
    }

    /** LZ4_prepareTable: keeps the table when its entries can be told apart from those of
        the next call, clears it otherwise. */
    method PrepareTable(inputSize: nat, newType: TableType)
      requires Valid() && newType != ClearedTable
      modifies this, hashTable
      ensures Valid() && dictSize == 0 && dictionary == None
      ensures hashTable[..] == old(NextTable(inputSize, newType))
      ensures currentOffset == old(NextOffset(inputSize, newType))
      ensures currentOffset != 0 ==> currentOffset <= GB1 + KB64
      ensures currentOffset != 0 && newType == ByU16 ==> currentOffset + inputSize < 0xFFFF
      ensures currentOffset != 0 && newType == ByU32 ==>
                forall k :: 0 <= k < hashTable.Length ==> hashTable[k] + KB64 <= currentOffset
    {
      if tableType != ClearedTable {
        if || tableType != newType
           || (newType == ByU16 && currentOffset + inputSize >= 0xFFFF)
           || (newType == ByU32 && currentOffset > GB1)
           || inputSize >= 4096
        {
          forall k | 0 <= k < hashTable.Length { hashTable[k] := 0; }
          currentOffset := 0;
          tableType := ClearedTable;
        }
      }
      if currentOffset != 0 && newType == ByU32 {
        currentOffset := currentOffset + KB64;
      }
      dictionary, dictSize := None, 0;
    }

    /** What a call on src asks of the compressor. */
    ghost function ResetJob(src: seq<byte>): (j: Job)
      requires Valid() && |src| <= MAX_INPUT_SIZE
      reads this, hashTable
      ensures Sized(j, hashTable.Length) && j.src == src && j.low == j.s0 == 0 && j.n == |src|
    {
      var newType := if |src| < LIMIT_64K then ByU16 else ByU32;
      var offset, byU16 := NextOffset(|src|, newType), newType == ByU16;
      Job(src, 0, |src|, 0, offset, byU16, byU16 && offset != 0, if byU16 then hash16 else hash32)
    }

    ghost function ResetTable(src: seq<byte>): (t: seq<nat>)
      reads this, hashTable
      ensures |t| == hashTable.Length
    {
      NextTable(|src|, if |src| < LIMIT_64K then ByU16 else ByU32)
    }

    ghost function ResetParse(src: seq<byte>, acceleration: int): (p: Parsed)
      requires Valid() && |src| <= MAX_INPUT_SIZE
      reads this, hashTable
      ensures p.anchor <= |src|
    {
      Parse(ResetJob(src), ResetTable(src), Acceleration(acceleration))
    }

    /** LZ4_compress_fast_extState_fastReset: the answer is the block of the parse if that fits, and 0 if
        not; it decodes on its own to src, whatever earlier calls left in the table.  There is one
        whenever dest has room for src as literals, which is less than LZ4_compressBound, and equal
        bytes are compressed to a 255th. */
    method CompressFastReset(src: seq<byte>, dest: array<byte>, dstCapacity: nat, acceleration0: int)
      returns (r: nat)
      requires Valid() && hashTable.Length > 0
      requires dest.Length >= dstCapacity + Slack(|src|, dstCapacity, false)
      modifies this, hashTable, dest
      ensures Valid()
      ensures r <= dstCapacity
      ensures if |src| > MAX_INPUT_SIZE then r == 0
              else Answer(old(ResetJob(src)), old(ResetParse(src, acceleration0)), Limited(dstCapacity), r, dest[..r])
      ensures r > 0 ==> Encodes(dest[..r], [], src) && (src == [] ==> dest[..r] == [0])
      ensures |src| <= MAX_INPUT_SIZE && LastSize(|src|) <= dstCapacity ==> r > 0
      ensures |src| <= MAX_INPUT_SIZE && IsRun(src) ==>
                r == if RunSize(|src|) <= dstCapacity then RunSize(|src|) else 0
    {
      hide Parse, Answer, Encodes, IsBlock, IsParse, IsRun, RunSize;
      var acceleration := Acceleration(acceleration0);
      var bound := if |src| > MAX_INPUT_SIZE then 0 else CompressBound(|src|);
      var limit := if dstCapacity >= bound then NotLimited else Limited(dstCapacity);
      var newType := if |src| < LIMIT_64K then ByU16 else ByU32;
      PrepareTable(|src|, newType);
      var byU16 := newType == ByU16;
      if |src| > MAX_INPUT_SIZE { return 0; }
      var j := Job(src, 0, |src|, 0, currentOffset, byU16, byU16 && currentOffset != 0,
                   if byU16 then hash16 else hash32);
      assert TableOk(hashTable, j, j.startIndex + 1);
      dictSize, currentOffset, tableType := dictSize + |src|, currentOffset + |src|, newType;
      r := CompressGeneric(j, hashTable, dest, limit, acceleration);
      NoHistory(src);
      ghost var p := old(ResetParse(src, acceleration0));
      if limit == NotLimited {
        UnlimitedFits(j, p, dstCapacity, r, dest[..r]);
      }
      AnswerFits(j, p, dstCapacity, r, dest[..r]);
      RunAnswer(j, old(ResetTable(src)), acceleration, dstCapacity, r, dest[..r]);
    }

    lemma NoHistory(src: seq<byte>)
      ensures src[0..0] == [] && src[0..|src|] == src
    {
    }

    // ------------------------------------------------------- linked blocks

    /** Between blocks of one stream laid out one after the other in memory, the next one
        starting at pos: every index in the table is that of a byte of the dictionary,
        whose last byte is the one before pos. */
    ghost predicate Linked(pos: nat)
      reads this, hashTable
    {
      && Valid() && tableType != ByU16
      && dictSize == currentOffset
      && (dictionary == None ==> dictSize == 0)
      && (dictionary != None ==> dictionary.value + dictSize == pos)
    }

    /** The indexes as they are used for a block of n bytes: slid down if they come too near 31 bits. */
    ghost function SlidOffset(n: nat): nat
      reads this
    {
      if currentOffset + n > 0x8000_0000 then KB64 else currentOffset
    }

    ghost function SlidTable(n: nat): (t: seq<nat>)
      reads this, hashTable
      ensures |t| == hashTable.Length
    {
      seq(hashTable.Length, k requires 0 <= k < hashTable.Length reads this, hashTable =>
        var back := currentOffset - SlidOffset(n);
        if hashTable[k] < back then 0 else hashTable[k] - back)
    }

    /** LZ4_renormDictT: slides the indexes down before they outgrow 31 bits.  An entry in
        the last 64 KB keeps naming the same byte, counted from the end of the
        dictionary; the others become the index of the byte 64 KB back, which is too far
        away for any match. */
    method RenormDict(nextSize: nat, ghost pos: nat)
      requires Linked(pos) && nextSize <= MAX_INPUT_SIZE
      modifies this, hashTable
      ensures Linked(pos) && currentOffset + nextSize <= 0x8000_0000
      ensures currentOffset == old(SlidOffset(nextSize)) && hashTable[..] == old(SlidTable(nextSize))
      ensures old(currentOffset) + nextSize <= 0x8000_0000 ==> hashTable[..] == old(hashTable[..])
      ensures forall k :: 0 <= k < hashTable.Length ==>
                if old(hashTable[k]) + KB64 >= old(currentOffset)
                then currentOffset - hashTable[k] == old(currentOffset) - old(hashTable[k])
                else currentOffset - hashTable[k] >= KB64
      ensures dictSize <= old(dictSize) && (dictionary == None <==> old(dictionary) == None)
    {
      if currentOffset + nextSize > 0x8000_0000 {
        var delta := currentOffset - KB64;
        for i := 0 to hashTable.Length
          modifies hashTable
          invariant forall k :: 0 <= k < i ==>
                      hashTable[k] == if old(hashTable[k]) < delta then 0 else old(hashTable[k]) - delta
          invariant forall k :: i <= k < hashTable.Length ==> hashTable[k] == old(hashTable[k])
        {
          hashTable[i] := if hashTable[i] < delta then 0 else hashTable[i] - delta;
        }
        currentOffset := KB64;
        var dictEnd := dictionary.value + dictSize;
        if dictSize > KB64 { dictSize := KB64; }
        dictionary := Some(dictEnd - dictSize);
      }
    }

    /** What a call on the next block asks of the compressor. */
    ghost function ContinueJob(mem: seq<byte>, pos: nat, n: nat): (j: Job)
      requires Linked(pos) && pos + n <= |mem| && n <= MAX_INPUT_SIZE
      reads this, hashTable
      ensures Sized(j, hashTable.Length) && j.src == mem && j.s0 == pos && j.n == n
    {
      var offset := SlidOffset(n);
      Job(mem, pos, n, pos - offset, offset, false, false, hash32)
    }

    ghost function ContinueParse(mem: seq<byte>, pos: nat, n: nat, acceleration: int): (p: Parsed)
      requires Linked(pos) && pos + n <= |mem| && n <= MAX_INPUT_SIZE
      reads this, hashTable
      ensures p.anchor <= pos + n
    {
      Parse(ContinueJob(mem, pos, n), SlidTable(n), Acceleration(acceleration))
    }

    /** LZ4_compress_fast_continue on the block mem[pos..pos + n] that follows the previous
        one.  The answer is the block of the parse if that fits, and 0 if not; it decodes to the
        block after the bytes before it that the dictionary covers. */
    method CompressFastContinue(mem: seq<byte>, pos: nat, n: nat, dest: array<byte>, maxOutputSize: nat,
                                acceleration0: int)
      returns (r: nat)
      requires hashTable.Length > 0 && Linked(pos) && pos + n <= |mem| && 0 < n <= MAX_INPUT_SIZE
      requires dest.Length >= maxOutputSize + Slack(n, maxOutputSize, dictionary != None)
      modifies this, hashTable, dest
      ensures Linked(pos + n) && dictionary != None
      ensures r <= maxOutputSize
      ensures Answer(old(ContinueJob(mem, pos, n)), old(ContinueParse(mem, pos, n, acceleration0)),
                     Limited(maxOutputSize), r, dest[..r])
      ensures old(dictionary) == None && IsRun(mem[pos..pos + n]) ==>
                r == if RunSize(n) <= maxOutputSize then RunSize(n) else 0
      ensures r > 0 ==> dictionary.value <= pos
                        && Encodes(dest[..r], mem[dictionary.value..pos], mem[pos..pos + n])
      ensures old(dictionary) != None ==> dictionary.value >= old(dictionary).value
      ensures old(dictionary) == None ==> dictionary.value == pos
      ensures LastSize(n) <= maxOutputSize ==> r > 0
    {
      hide Parse;
      RenormDict(n, pos);
      var acceleration := Acceleration(acceleration0);
      // A dictionary of 1 to 3 bytes that does not end at pos would be dropped here, and
      // one that the block overlaps shortened; blocks in a row never meet either case.
      if dictionary != None && dictionary.value + dictSize == pos {
        r := CompressPrefix(mem, pos, n, dest, maxOutputSize, acceleration);
      } else {
        r := CompressFirst(mem, pos, n, dest, maxOutputSize, acceleration);
        RunAnswer(old(ContinueJob(mem, pos, n)), old(SlidTable(n)), acceleration, maxOutputSize, r, dest[..r]);
      }
    }

    /** The block of the parse of mem[pos..pos + n] after the bytes the indexes below offset stand for,
        or 0 when it does not fit. */
    ghost predicate Answers(mem: seq<byte>, pos: nat, n: nat, offset: nat, table: seq<nat>, dictSmall: bool,
                            acceleration: nat, max: nat, r: nat, block: seq<byte>)
      requires offset <= pos && pos + n <= |mem|
    {
      var j := Job(mem, pos, n, pos - offset, offset, false, dictSmall, hash32);
      Sized(j, |table|) && acceleration >= 1
      && Answer(j, Parse(j, table, acceleration), Limited(max), r, block)
    }

    /** The call of LZ4_compress_generic when every index is that of an available byte. */
    method CompressBlock(mem: seq<byte>, pos: nat, n: nat, dictSmall: bool, dest: array<byte>, max: nat,
                         acceleration: nat)
      returns (r: nat)
      requires hashTable.Length > 0 && Valid() && pos + n <= |mem| && currentOffset <= pos
      requires n <= MAX_INPUT_SIZE && currentOffset + n <= 0x8000_0000
      requires dest.Length >= max + Slack(n, max, currentOffset > 0) && acceleration >= 1
      modifies this`currentOffset, this`tableType, hashTable, dest
      ensures Valid() && currentOffset == old(currentOffset) + n && tableType == ByU32 && r <= max
      ensures Answers(mem, pos, n, old(currentOffset), old(hashTable[..]), dictSmall, acceleration, max, r, dest[..r])
      ensures r > 0 ==> Encodes(dest[..r], mem[pos - old(currentOffset)..pos], mem[pos..pos + n])
      ensures LastSize(n) <= max ==> r > 0
    {
      hide Parse, Answer, Encodes, IsBlock, IsParse;
      var j := Job(mem, pos, n, pos - currentOffset, currentOffset, false, dictSmall, hash32);
      assert TableOk(hashTable, j, j.startIndex + 1);
      currentOffset, tableType := currentOffset + n, ByU32;
      r := CompressGeneric(j, hashTable, dest, Limited(max), acceleration);
      AnswerFits(j, Parse(j, old(hashTable[..]), acceleration), max, r, dest[..r]);
    }

    /** Prefix mode: the block follows the dictionary in memory. */
    method CompressPrefix(mem: seq<byte>, pos: nat, n: nat, dest: array<byte>, max: nat, acceleration: nat)
      returns (r: nat)
      requires hashTable.Length > 0 && Linked(pos) && dictionary != None && pos + n <= |mem|
      requires n <= MAX_INPUT_SIZE && currentOffset + n <= 0x8000_0000
      requires dest.Length >= max + Slack(n, max, true) && acceleration >= 1
      modifies this, hashTable, dest
      ensures Linked(pos + n) && dictionary == old(dictionary) && dictionary.value <= pos && r <= max
      ensures Answers(mem, pos, n, old(currentOffset), old(hashTable[..]), false, acceleration, max, r, dest[..r])
      ensures r > 0 ==> Encodes(dest[..r], mem[dictionary.value..pos], mem[pos..pos + n])
      ensures LastSize(n) <= max ==> r > 0
    {
      hide Answers, Encodes;
      var dictSmall := dictSize < KB64 && dictSize < currentOffset;
      r := CompressBlock(mem, pos, n, dictSmall, dest, max, acceleration);
      dictSize := dictSize + n;
    }

    /** The first block: an external dictionary of no bytes, so that no index is below
        startIndex and the available segment is the block alone. */
    method CompressFirst(mem: seq<byte>, pos: nat, n: nat, dest: array<byte>, max: nat, acceleration: nat)
      returns (r: nat)
      requires hashTable.Length > 0 && Linked(pos) && dictionary == None && pos + n <= |mem|
      requires n <= MAX_INPUT_SIZE && dest.Length >= max + Slack(n, max, false) && acceleration >= 1
      modifies this, hashTable, dest
      ensures Linked(pos + n) && dictionary == Some(pos) && r <= max
      ensures Answers(mem, pos, n, old(currentOffset), old(hashTable[..]), false, acceleration, max, r, dest[..r])
      ensures r > 0 ==> Encodes(dest[..r], mem[pos..pos], mem[pos..pos + n])
      ensures LastSize(n) <= max ==> r > 0
    {
      hide Answers, Encodes;
      r := CompressBlock(mem, pos, n, false, dest, max, acceleration);
      dictionary, dictSize := Some(pos), n;
    }
  }

  /** LZ4_streamDecode_t without an external dictionary: the output so far, in place. */
  class StreamDecode {
    var prefixSize: nat
    var prefixEnd: nat

    constructor ()
      ensures prefixSize == 0
    {
      prefixSize, prefixEnd := 0, 0;
    }

    /** The output that matches may reach. */
    ghost function History(buf: array<byte>, dst: nat): seq<byte>
      requires prefixSize <= dst <= buf.Length
      reads this, buf
    {
      buf[dst - prefixSize..dst]
    }

    lemma WholeHistory(buf: array<byte>, dst: nat)
      requires prefixSize == dst <= buf.Length
      ensures History(buf, dst) == buf[..dst]
    {
    }

    /** LZ4_decompress_safe_continue, the blocks being decoded one after the other in buf:
        matches may reach the whole output of the earlier blocks. */
    method DecompressSafeContinue(src: seq<byte>, buf: array<byte>, dst: nat, cap: nat) returns (r: int)
      requires |src| <= INT_MAX && cap <= INT_MAX && dst + cap <= buf.Length
      requires prefixSize == 0 || (prefixEnd == dst && prefixSize <= dst)
      modifies this, buf
      ensures forall k :: 0 <= k < buf.Length && !(dst <= k < dst + cap) ==> buf[k] == old(buf[k])
      ensures r <= cap
      ensures match SafeContent(old(History(buf, dst)), src, cap)
              case None => r < 0
              case Some(x) => r == |x| && buf[dst..dst + r] == x
      ensures r >= 0 ==> Decode(src, 0, old(History(buf, dst)))
                         == Some(buf[dst - old(prefixSize)..dst + r])
      ensures forall content | Encodes(src, old(History(buf, dst)), content) && 0 < |content| <= cap ::
                r == |content| && buf[dst..dst + r] == content
      ensures r > 0 ==> prefixSize == old(prefixSize) + r && prefixEnd == dst + r
      ensures r <= 0 ==> prefixSize == old(prefixSize) && prefixEnd == old(prefixEnd)
    {
      hide Encodes, Decode, SafeContent;
      if prefixSize == 0 {
        r := DecompressGeneric(src, buf, dst, dst, cap, false);
        if r <= 0 { return; }
        prefixSize, prefixEnd := r, dst + r;
      } else {
        r := DecompressGeneric(src, buf, dst - prefixSize, dst, cap, prefixSize >= KB64 - 1);
        if r <= 0 { return; }
        prefixSize, prefixEnd := prefixSize + r, prefixEnd + r;
      }
    }
  }

  // ------------------------------------------------------------- round trips

  /** More history in front changes nothing for a block that decodes. */
  lemma {:induction false} DecodeMoreHistory(src: seq<byte>, i: nat, out: seq<byte>, more: seq<byte>)
    requires Decode(src, i, out).Some?
    ensures Decode(src, i, more + out) == Some(more + Decode(src, i, out).value)
    decreases |src| - i
  {
    var it := ItemAt(src, i);
    if it.Match? {
      ApplyMoreHistory(src, it, out, more);
      DecodeMoreHistory(src, it.next, Apply(src, it, out), more);
    } else {
      assert more + (out + Lits(src, it)) == (more + out) + Lits(src, it);
    }
  }

  lemma {:induction false} CopyMatchMoreHistory(out: seq<byte>, offset: nat, len: nat, more: seq<byte>)
    requires offset <= |out|
    ensures CopyMatch(more + out, offset, len) == more + CopyMatch(out, offset, len)
    decreases len
  {
    if len > 0 {
      var b := BackByte(out, offset);
      assert BackByte(more + out, offset) == b;
      assert (more + out) + [b] == more + (out + [b]);
      CopyMatchMoreHistory(out + [b], offset, len - 1, more);
    }
  }

  lemma ApplyMoreHistory(src: seq<byte>, it: Item, out: seq<byte>, more: seq<byte>)
    requires it.Match? && it.litStart + it.litLen <= |src| && it.offset <= |out| + it.litLen
    ensures Apply(src, it, more + out) == more + Apply(src, it, out)
  {
    CopyMatchMoreHistory(out + Lits(src, it), it.offset, it.matchLen, more);
    assert more + (out + Lits(src, it)) == (more + out) + Lits(src, it);
  }

  /** More history in front changes nothing for the decoder, once there are 64 KB of it. */
  lemma {:induction false} SafeMoreHistory(src: seq<byte>, i: nat, out: seq<byte>, more: seq<byte>, pos: nat, room: nat)
    requires |out| >= DISTANCE_MAX
    ensures SafeDecode(src, i, more + out, pos, room)
         == match SafeDecode(src, i, out, pos, room) case None => None case Some(d) => Some(more + d)
    decreases |src| - i
  {
    hide Refused, ItemAt, CopyMatch, SafeDecode;
    var it := ItemAt(src, i);
    if i < |src| { RefusedMore(src, i, |out|, |more|, pos, room); }
    if i < |src| && !Refused(src, i, |out|, pos, room) && it.Match? {
      SafeMatch(src, i, out, pos, room, it);
      SafeMatch(src, i, more + out, pos, room, it);
      ApplyMoreHistory(src, it, out, more);
      SafeMoreHistory(src, it.next, Apply(src, it, out), more, pos + it.litLen + it.matchLen, room);
    } else {
      SafeStops(src, i, out, pos, room, it);
      SafeStops(src, i, more + out, pos, room, it);
      if it.Last? { assert more + (out + Lits(src, it)) == more + out + Lits(src, it); }
    }
  }

  /** It stays in its room. */
  lemma {:induction false} SafeFits(src: seq<byte>, i: nat, out: seq<byte>, pos: nat, room: nat)
    requires SafeDecode(src, i, out, pos, room).Some?
    ensures pos + |SafeDecode(src, i, out, pos, room).value| - |out| <= room
    ensures |out| <= |SafeDecode(src, i, out, pos, room).value|
    decreases |src| - i
  {
    hide ReadExt, LitsAt, MatchLenAt, TooLong, CopyMatch;
    var it := ItemAt(src, i);
    if it.Match? { SafeFits(src, it.next, Apply(src, it, out), pos + it.litLen + it.matchLen, room); }
  }

  lemma EncodesMoreHistory(src: seq<byte>, history: seq<byte>, content: seq<byte>, more: seq<byte>)
    requires Encodes(src, history, content)
    ensures Encodes(src, more + history, content)
  {
    EncodesMeans(src, history, content);
    DecodeMoreHistory(src, 0, history, more);
    assert more + (history + content) == (more + history) + content;
    EncodesMeans(src, more + history, content);
  }

  /** Whatever calls the context has been through, a non-zero answer of the one-shot
      compressor is decoded to exactly the input, into any capacity that holds it. */
  method BlockRoundTrip(ctx: Stream, src: seq<byte>, dstCapacity: nat, acceleration: int,
                        buf: array<byte>, cap: nat)
    returns (r: nat, n: int)
    requires ctx.Valid() && ctx.hashTable.Length > 0 && |src| <= cap <= buf.Length && cap <= INT_MAX
    requires dstCapacity + Slack(|src|, dstCapacity, false) <= INT_MAX
    modifies ctx, ctx.hashTable, buf
    ensures ctx.Valid() && r <= dstCapacity
    ensures r > 0 ==> n == |src| && buf[..n] == src
    ensures |src| <= MAX_INPUT_SIZE && CompressBound(|src|) <= dstCapacity ==> r > 0
  {
    hide Parse, Answer, Encodes, Decode;
    var dest := new byte[dstCapacity + Slack(|src|, dstCapacity, false)];
    r := ctx.CompressFastReset(src, dest, dstCapacity, acceleration);
    n := DecompressGeneric(dest[..r], buf, 0, 0, cap, false);
  }

  /** What blocks of these sizes take up together. */
  function Sum(sizes: seq<nat>): nat {
    if sizes == [] then 0 else Sum(sizes[..|sizes| - 1]) + sizes[|sizes| - 1]
  }

  /** Any number of non-empty blocks in a row, each compressed by CompressFastContinue from
      a fresh stream and decoded by DecompressSafeContinue, come back as they were. */
  method StreamRoundTrip(content: seq<byte>, sizes: seq<nat>, size: nat, hash: Hash, acceleration: int,
                         buf: array<byte>)
    requires size > 0 && forall s: seq<byte> :: hash(s) < size
    requires forall k :: 0 <= k < |sizes| ==> 0 < sizes[k] <= MAX_INPUT_SIZE
    requires Sum(sizes) == |content| <= buf.Length
    modifies buf
    ensures buf[..|content|] == content
  {
    var enc := new Stream(size, hash, hash);
    var dec := new StreamDecode();
    var pos := 0;
    for i := 0 to |sizes|
      invariant fresh(enc) && fresh(enc.hashTable) && fresh(dec) && enc.hashTable.Length == size
      invariant pos == Sum(sizes[..i]) && enc.Linked(pos) && (i > 0 ==> enc.dictionary != None)
      invariant enc.dictionary != None ==> enc.dictionary.value <= pos
      invariant dec.prefixSize == pos && (pos > 0 ==> dec.prefixEnd == pos)
      invariant pos <= |content| && buf[..pos] == content[..pos]
    {
      var n := sizes[i];
      assert sizes[..i + 1][..i] == sizes[..i];
      SumPrefix(sizes, i + 1);
      BlockOfStream(enc, dec, content, pos, n, acceleration, buf);
      pos := pos + n;
    }
    assert sizes[..|sizes|] == sizes;
    assert content[..pos] == content;
  }

  lemma {:induction false} SumPrefix(sizes: seq<nat>, i: nat)
    requires i <= |sizes|
    ensures Sum(sizes[..i]) <= Sum(sizes)
    decreases |sizes|
  {
    if i < |sizes| {
      SumPrefix(sizes[..|sizes| - 1], i);
      assert sizes[..|sizes| - 1][..i] == sizes[..i];
    } else {
      assert sizes[..i] == sizes;
    }
  }

  /** The next block of a stream, compressed. */
  method EncodeNext(enc: Stream, content: seq<byte>, pos: nat, n: nat, acceleration: int) returns (block: seq<byte>)
    requires enc.hashTable.Length > 0 && enc.Linked(pos) && pos + n <= |content|
    requires enc.dictionary != None ==> enc.dictionary.value <= pos
    requires 0 < n <= MAX_INPUT_SIZE
    modifies enc, enc.hashTable
    ensures enc.Linked(pos + n) && enc.dictionary != None && enc.dictionary.value <= pos + n
    ensures |block| <= INT_MAX && Encodes(block, content[..pos], content[pos..pos + n])
  {
    hide Encodes, Stream.Valid, Answer, Parse;
    var dest := new byte[CompressBound(n)];
    var r := enc.CompressFastContinue(content, pos, n, dest, CompressBound(n), acceleration);
    block := dest[..r];
    ghost var low := enc.dictionary.value;
    assert content[..low] + content[low..pos] == content[..pos];
    EncodesMoreHistory(block, content[low..pos], content[pos..pos + n], content[..low]);
  }

  /** One block through both ends of a stream. */
  method BlockOfStream(enc: Stream, dec: StreamDecode, content: seq<byte>, pos: nat, n: nat,
                       acceleration: int, buf: array<byte>)
    requires enc.hashTable.Length > 0 && enc.Linked(pos) && pos + n <= |content| && pos + n <= buf.Length
    requires enc.dictionary != None ==> enc.dictionary.value <= pos
    requires 0 < n <= MAX_INPUT_SIZE
    requires dec.prefixSize == pos && (pos > 0 ==> dec.prefixEnd == pos) && buf[..pos] == content[..pos]
    modifies enc, enc.hashTable, dec, buf
    ensures enc.Linked(pos + n) && enc.dictionary != None && enc.dictionary.value <= pos + n
    ensures dec.prefixSize == pos + n && dec.prefixEnd == pos + n && buf[..pos + n] == content[..pos + n]
  {
    hide Decode, Encodes, SafeContent, Stream.Linked, StreamDecode.History;
    var block := EncodeNext(enc, content, pos, n, acceleration);
    dec.WholeHistory(buf, pos);
    SafeContentOfFormat(block, content[..pos], content[pos..pos + n], n);
    var m := dec.DecompressSafeContinue(block, buf, pos, n);
    assert buf[..pos] == content[..pos];
    assert buf[..pos + n] == buf[..pos] + buf[pos..pos + n];
  }
}
