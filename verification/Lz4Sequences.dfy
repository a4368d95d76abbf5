/** Writing blocks: sequences of literals and matches, their bytes, their replay,
    and why the reference decoder reads them back. */
module Lz4Sequences {
  import opened Lz4Format

  datatype Sequence = Sequence(lits: seq<byte>, offset: nat, matchLen: nat)

  /** A sequence the format can hold. */
  predicate Writable(s: Sequence) {
    && 1 <= s.offset <= DISTANCE_MAX
    && MINMATCH <= s.matchLen < U32
    && |s.lits| < U32
  }

  function Nibble(v: nat): (r: nat)
    ensures r <= 15
  {
    if v < 15 then v else 15
  }

  /** Length bytes after the token for a length v. */
  function ExtOf(v: nat): (s: seq<byte>)
    ensures |s| == (v + 240) / 255
  {
    if v < 15 then [] else Ext(v - 15)
  }

  function TokenOf(ll: nat, mc: nat): (t: byte)
    ensures t / 16 == Nibble(ll) && t % 16 == Nibble(mc)
  {
    16 * Nibble(ll) + Nibble(mc)
  }

  function LE16Bytes(v: nat): seq<byte>
    requires v < 65536
  {
    [v % 256, v / 256]
  }

  /** A token, the rest of the literal length, and the literals. */
  function LitBytes(token: byte, lits: seq<byte>): seq<byte> {
    [token] + (ExtOf(|lits|) + lits)
  }

  /** An offset and the rest of the match length. */
  function MatchBytes(offset: nat, mc: nat): seq<byte>
    requires offset < 65536
  {
    LE16Bytes(offset) + ExtOf(mc)
  }

  function SeqBytes(s: Sequence): seq<byte>
    requires Writable(s)
  {
    LitBytes(TokenOf(|s.lits|, s.matchLen - MINMATCH), s.lits)
    + MatchBytes(s.offset, s.matchLen - MINMATCH)
  }

  function LastBytes(lits: seq<byte>): seq<byte> {
    LitBytes(TokenOf(|lits|, 0), lits)
  }

  predicate AllWritable(ss: seq<Sequence>) {
    ss == [] || (AllWritable(ss[..|ss| - 1]) && Writable(ss[|ss| - 1]))
  }

  function BlockBytes(ss: seq<Sequence>): seq<byte>
    requires AllWritable(ss)
  {
    if ss == [] then [] else BlockBytes(ss[..|ss| - 1]) + SeqBytes(ss[|ss| - 1])
  }

  /** The content the sequences stand for, appended to out; None when some match
      reaches before the start. */
  function Replay(out: seq<byte>, ss: seq<Sequence>): (r: Option<seq<byte>>)
    ensures r.Some? ==> |out| <= |r.value|
  {
    if ss == [] then Some(out)
    else match Replay(out, ss[..|ss| - 1])
      case None => None
      case Some(o) =>
        var s := ss[|ss| - 1];
        if s.offset > |o| + |s.lits| then None
        else Some(CopyMatch(o + s.lits, s.offset, s.matchLen))
  }

  /** Number of content bytes of the sequences. */
  function Span(ss: seq<Sequence>): nat {
    if ss == [] then 0
    else Span(ss[..|ss| - 1]) + |ss[|ss| - 1].lits| + ss[|ss| - 1].matchLen
  }

  /** The end-of-block restrictions on sequences, for content of total bytes. */
  predicate Legal(ss: seq<Sequence>, total: nat) {
    ss == [] ||
    var s := ss[|ss| - 1];
    && Legal(ss[..|ss| - 1], total)
    && Span(ss) - s.matchLen + MFLIMIT <= total
    && Span(ss) + LASTLITERALS <= total
  }

  // ------------------------------------------------------------ reading back

  /** The bytes of src from position i on start with part. */
  predicate At(src: seq<byte>, i: nat, part: seq<byte>) {
    && i + |part| <= |src|
    && forall k :: 0 <= k < |part| ==> src[i + k] == part[k]
  }

  lemma AtConcat(src: seq<byte>, i: nat, a: seq<byte>, b: seq<byte>)
    ensures At(src, i, a + b) <==> At(src, i, a) && At(src, i + |a|, b)
  {
    if At(src, i, a + b) {
      forall k | 0 <= k < |a| ensures src[i + k] == a[k] {
        assert (a + b)[k] == a[k];
      }
      forall k | 0 <= k < |b| ensures src[i + |a| + k] == b[k] {
        assert (a + b)[|a| + k] == b[k];
      }
    }
  }

  lemma {:induction false} ReadExtReads(src: seq<byte>, i: nat, v: nat)
    requires At(src, i, Ext(v))
    ensures ReadExt(src, i) == Some((v, i + |Ext(v)|))
    decreases v
  {
    assert src[i + 0] == Ext(v)[0];
    if v >= 255 {
      AtConcat(src, i, [255], Ext(v - 255));
      ReadExtReads(src, i + 1, v - 255);
    }
  }

  /** Where the literals of a sequence or a last run written at i start. */
  function LitPos(i: nat, ll: nat): nat {
    i + 1 + |ExtOf(ll)|
  }

  lemma LitsAtReads(src: seq<byte>, i: nat, token: byte, lits: seq<byte>)
    requires |lits| < U32 && token / 16 == Nibble(|lits|)
    requires At(src, i, LitBytes(token, lits))
    ensures src[i] == token
    ensures LitsAt(src, i) == Some((LitPos(i, |lits|), |lits|))
    ensures At(src, LitPos(i, |lits|), lits)
  {
    AtConcat(src, i, [token], ExtOf(|lits|) + lits);
    AtConcat(src, i + 1, ExtOf(|lits|), lits);
    assert src[i + 0] == [token][0];
    if |lits| >= 15 {
      ReadExtReads(src, i + 1, |lits| - 15);
    }
  }

  lemma MatchReads(src: seq<byte>, token: byte, j: nat, offset: nat, mc: nat)
    requires offset < 65536 && mc < U32 && token % 16 == Nibble(mc)
    requires At(src, j, MatchBytes(offset, mc))
    ensures j + 2 <= |src| && LE16(src[j], src[j + 1]) == offset
    ensures MatchLenAt(src, token, j + 2) == Some((mc + MINMATCH, j + |MatchBytes(offset, mc)|))
  {
    AtConcat(src, j, LE16Bytes(offset), ExtOf(mc));
    assert src[j + 0] == LE16Bytes(offset)[0];
    assert src[j + 1] == LE16Bytes(offset)[1];
    if mc >= 15 {
      ReadExtReads(src, j + 2, mc - 15);
    }
  }

  /** The bytes of a sequence are read as that sequence, whatever follows them. */
  lemma ItemReadsSequence(src: seq<byte>, i: nat, s: Sequence)
    requires Writable(s)
    requires At(src, i, SeqBytes(s))
    ensures ItemAt(src, i)
         == Match(LitPos(i, |s.lits|), |s.lits|, s.offset, s.matchLen, i + |SeqBytes(s)|)
    ensures At(src, LitPos(i, |s.lits|), s.lits)
  {
    var token := TokenOf(|s.lits|, s.matchLen - MINMATCH);
    var a, b := LitBytes(token, s.lits), MatchBytes(s.offset, s.matchLen - MINMATCH);
    AtConcat(src, i, a, b);
    LitsAtReads(src, i, token, s.lits);
    MatchReads(src, token, i + |a|, s.offset, s.matchLen - MINMATCH);
  }

  lemma ItemReadsLast(src: seq<byte>, i: nat, lits: seq<byte>)
    requires |lits| < U32
    requires At(src, i, LastBytes(lits)) && i + |LastBytes(lits)| == |src|
    ensures ItemAt(src, i) == Last(LitPos(i, |lits|), |lits|)
    ensures At(src, LitPos(i, |lits|), lits)
  {
    LitsAtReads(src, i, TokenOf(|lits|, 0), lits);
  }

  lemma BlockBytesSnoc(ss: seq<Sequence>, s: Sequence)
    requires Writable(s) && AllWritable(ss)
    ensures AllWritable(ss + [s])
    ensures BlockBytes(ss + [s]) == BlockBytes(ss) + SeqBytes(s)
    ensures Span(ss + [s]) == Span(ss) + |s.lits| + s.matchLen
  {
    assert (ss + [s])[..|ss|] == ss;
  }

  lemma ReplaySnoc(out: seq<byte>, ss: seq<Sequence>, s: Sequence)
    ensures Replay(out, ss + [s]) ==
            match Replay(out, ss)
            case None => None
            case Some(o) => if s.offset > |o| + |s.lits| then None
                            else Some(CopyMatch(o + s.lits, s.offset, s.matchLen))
  {
    assert (ss + [s])[..|ss|] == ss;
  }

  lemma DecodeStep(src: seq<byte>, i: nat, s: Sequence, out: seq<byte>)
    requires Writable(s) && At(src, i, SeqBytes(s))
    requires s.offset <= |out| + |s.lits|
    ensures Decode(src, i, out)
         == Decode(src, i + |SeqBytes(s)|, CopyMatch(out + s.lits, s.offset, s.matchLen))
  {
    hide Decode, ItemAt, SeqBytes;
    ItemReadsSequence(src, i, s);
    var it := ItemAt(src, i);
    assert Lits(src, it) == s.lits;
    DecodeMatch(src, i, out, it);
  }

  lemma DecodeLast(src: seq<byte>, i: nat, lits: seq<byte>, out: seq<byte>)
    requires |lits| < U32
    requires At(src, i, LastBytes(lits)) && i + |LastBytes(lits)| == |src|
    ensures Decode(src, i, out) == Some(out + lits)
  {
    ItemReadsLast(src, i, lits);
    var ls := LitPos(i, |lits|);
    assert src[ls..ls + |lits|] == lits;
  }

  lemma LegalSnoc(ss: seq<Sequence>, s: Sequence, total: nat)
    requires Legal(ss, total)
    requires Span(ss) + |s.lits| + MFLIMIT <= total
    requires Span(ss) + |s.lits| + s.matchLen + LASTLITERALS <= total
    ensures Legal(ss + [s], total)
  {
    assert (ss + [s])[..|ss|] == ss;
  }

  /** Decoding the bytes of sequences brings the reference decoder to their end, with
      their replay as output, whatever bytes follow. */
  lemma {:induction false} DecodeThroughSequences(src: seq<byte>, ss: seq<Sequence>, out: seq<byte>)
    requires AllWritable(ss)
    requires At(src, 0, BlockBytes(ss))
    requires Replay(out, ss).Some?
    ensures Decode(src, 0, out) == Decode(src, |BlockBytes(ss)|, Replay(out, ss).value)
    decreases |ss|
  {
    hide Decode, CopyMatch;
    if ss != [] {
      var front, s := ss[..|ss| - 1], ss[|ss| - 1];
      var i, o := |BlockBytes(front)|, Replay(out, front).value;
      assert i + |SeqBytes(s)| == |BlockBytes(ss)|;
      assert Replay(out, ss).value == CopyMatch(o + s.lits, s.offset, s.matchLen);
      AtConcat(src, 0, BlockBytes(front), SeqBytes(s));
      DecodeThroughSequences(src, front, out);
      DecodeStep(src, i, s, o);
    }
  }

  lemma RestrictedStep(src: seq<byte>, i: nat, s: Sequence, pos: nat, total: nat)
    requires Writable(s) && At(src, i, SeqBytes(s))
    requires pos + |s.lits| + MFLIMIT <= total
    requires pos + |s.lits| + s.matchLen + LASTLITERALS <= total
    ensures Restricted(src, i, pos, total)
         == Restricted(src, i + |SeqBytes(s)|, pos + |s.lits| + s.matchLen, total)
  {
    hide Restricted, ItemAt, SeqBytes;
    ItemReadsSequence(src, i, s);
    RestrictedMatch(src, i, pos, total, ItemAt(src, i));
  }

  lemma {:induction false} RestrictedThroughSequences(src: seq<byte>, ss: seq<Sequence>, total: nat)
    requires AllWritable(ss)
    requires At(src, 0, BlockBytes(ss))
    requires Legal(ss, total)
    ensures Restricted(src, 0, 0, total) == Restricted(src, |BlockBytes(ss)|, Span(ss), total)
    decreases |ss|
  {
    hide Restricted;
    if ss != [] {
      var front, s := ss[..|ss| - 1], ss[|ss| - 1];
      AtConcat(src, 0, BlockBytes(front), SeqBytes(s));
      var i, pos := |BlockBytes(front)|, Span(front);
      assert i + |SeqBytes(s)| == |BlockBytes(ss)|;
      assert pos + |s.lits| + s.matchLen == Span(ss);
      RestrictedThroughSequences(src, front, total);
      RestrictedStep(src, i, s, pos, total);
    }
  }

  lemma {:induction false} ReplayLength(out: seq<byte>, ss: seq<Sequence>)
    requires Replay(out, ss).Some?
    ensures |Replay(out, ss).value| == |out| + Span(ss)
    decreases |ss|
  {
    if ss != [] {
      ReplayLength(out, ss[..|ss| - 1]);
    }
  }

  /** Any legal sequences followed by their last literals form a block that the
      reference decoder turns into the replayed content. */
  lemma BlockEncodes(history: seq<byte>, ss: seq<Sequence>, last: seq<byte>, content: seq<byte>)
    requires AllWritable(ss)
    requires |last| < U32
    requires Replay(history, ss).Some? && Replay(history, ss).value + last == history + content
    requires Legal(ss, |content|)
    ensures Encodes(BlockBytes(ss) + LastBytes(last), history, content)
  {
    var src := BlockBytes(ss) + LastBytes(last);
    var i := |BlockBytes(ss)|;
    assert At(src, 0, BlockBytes(ss)) && At(src, i, LastBytes(last));
    DecodeThroughSequences(src, ss, history);
    DecodeLast(src, i, last, Replay(history, ss).value);
    RestrictedThroughSequences(src, ss, |content|);
    ItemReadsLast(src, i, last);
    ReplayLength(history, ss);
    EncodesMeans(src, history, content);
  }

  // -------------------------------------------------------------------- size

  /** A sequence never needs more than 256/255 of the content it stands for, less
      one byte: the match saves at least what the length bytes cost. */
  lemma SeqBytesSize(s: Sequence)
    requires Writable(s)
    ensures 255 * |SeqBytes(s)| <= 256 * (|s.lits| + s.matchLen)
  {
  }

  lemma {:induction false} BlockBytesSize(ss: seq<Sequence>)
    requires AllWritable(ss)
    ensures 255 * |BlockBytes(ss)| <= 256 * Span(ss)
    decreases |ss|
  {
    if ss != [] {
      BlockBytesSize(ss[..|ss| - 1]);
      SeqBytesSize(ss[|ss| - 1]);
    }
  }

  /** LZ4_COMPRESSBOUND for a size it supports. */
  function CompressBound(n: nat): nat {
    n + n / 255 + 16
  }

  /** Worst case: no parse of n bytes of content is longer than the bound. */
  lemma BlockSize(ss: seq<Sequence>, last: seq<byte>)
    requires AllWritable(ss)
    ensures |BlockBytes(ss) + LastBytes(last)| <= CompressBound(Span(ss) + |last|)
  {
    BlockBytesSize(ss);
  }
}
