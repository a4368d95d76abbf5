/** Blocks given byte by byte: where lengths and offsets are, and how close to the end a match may be. */
module Lz4Samples {
  import opened Lz4Format
  import opened Lz4Sequences

  /** Eighteen literals and a match of 21 bytes, 258 bytes back: token, length byte, literals, offset with
      its low byte first, length byte; then twelve last literals. */
  lemma SequenceBytes(lits: seq<byte>, last: seq<byte>)
    requires |lits| == 18 && |last| == 12
    ensures SeqBytes(Sequence(lits, 258, 21)) == [0xFF, 0x03] + lits + [0x02, 0x01, 0x02]
    ensures LastBytes(last) == [0xC0] + last
  {
    assert Ext(3) == [3] && Ext(2) == [2];
    assert ExtOf(18) == [3] && ExtOf(17) == [2] && ExtOf(12) == [];
    assert [0xFF] + ([3] + lits) + ([0x02, 0x01] + [2]) == [0xFF, 0x03] + lits + [0x02, 0x01, 0x02];
  }

  /** What such a block means. */
  lemma SequenceMeans(history: seq<byte>, lits: seq<byte>, last: seq<byte>)
    requires |lits| == 18 && |last| == 12 && |history| >= 240
    ensures var n := |history|;
            ContentOf([0xFF, 0x03] + lits + [0x02, 0x01, 0x02] + ([0xC0] + last), history)
            == Some(lits + history[n - 240..n - 219] + last)
  {
    hide Encodes, SeqBytes, LastBytes, CopyMatch;
    var s, n := Sequence(lits, 258, 21), |history|;
    var m := history[n - 240..n - 219];
    SequenceBytes(lits, last);
    var out, r := history + lits, history + lits + m;
    forall k | |out| <= k < |r| ensures r[k] == r[k - 258] {
      assert r[k] == m[k - |out|] == history[n - 240 + k - |out|];
    }
    assert r[..|out|] == out;
    CopyMatchUnique(out, 258, 21, r);
    OneSequence(history, s, last);
    assert (r + last)[n..] == lits + m + last;
  }

  /** A block of one sequence and last literals is of the format if and only if the match starts at least
      twelve bytes before the end and leaves five. */
  lemma OneSequence(history: seq<byte>, s: Sequence, last: seq<byte>)
    requires Writable(s) && |last| < U32 && s.offset <= |history| + |s.lits|
    ensures ContentOf(SeqBytes(s) + LastBytes(last), history)
            == if s.matchLen + |last| >= MFLIMIT && |last| >= LASTLITERALS
               then Some((CopyMatch(history + s.lits, s.offset, s.matchLen) + last)[|history|..]) else None
  {
    hide ContentOf, SeqBytes, LastBytes, CopyMatch, Decode, Restricted, ItemAt;
    var out := CopyMatch(history + s.lits, s.offset, s.matchLen);
    var b, i := SeqBytes(s) + LastBytes(last), |SeqBytes(s)|;
    var total := |s.lits| + s.matchLen + |last|;
    assert At(b, 0, SeqBytes(s)) && At(b, i, LastBytes(last));
    DecodeStep(b, 0, s, history);
    DecodeLast(b, i, last, out);
    OneRestricted(b, s, last, total);
    assert |out + last| == |history| + total;
    ContentIs(b, history, out + last);
  }

  lemma ContentIs(src: seq<byte>, history: seq<byte>, d: seq<byte>)
    requires Decode(src, 0, history) == Some(d) && |history| <= |d|
    ensures ContentOf(src, history)
            == if Restricted(src, 0, 0, |d| - |history|) then Some(d[|history|..]) else None
  {
  }

  lemma OneRestricted(b: seq<byte>, s: Sequence, last: seq<byte>, total: nat)
    requires Writable(s) && |last| < U32 && total == |s.lits| + s.matchLen + |last|
    requires At(b, 0, SeqBytes(s)) && At(b, |SeqBytes(s)|, LastBytes(last))
    requires |SeqBytes(s)| + |LastBytes(last)| == |b|
    ensures Restricted(b, 0, 0, total) <==> s.matchLen + |last| >= MFLIMIT && |last| >= LASTLITERALS
  {
    hide SeqBytes, LastBytes, Restricted, ItemAt;
    ItemReadsSequence(b, 0, s);
    RestrictedMatch(b, 0, 0, total, ItemAt(b, 0));
    ItemReadsLast(b, |SeqBytes(s)|, last);
    LastOnly(b, |SeqBytes(s)|, |s.lits| + s.matchLen, total);
  }

  lemma LastOnly(src: seq<byte>, i: nat, pos: nat, total: nat)
    requires ItemAt(src, i).Last?
    ensures Restricted(src, i, pos, total) <==> pos + ItemAt(src, i).litLen == total
  {
  }

  /** A match of equal bytes: one literal, copied from one byte back. */
  lemma EqualBytes(history: seq<byte>, a: byte, len: nat)
    ensures CopyMatch(history + [a], 1, len) == history + seq(1 + len, _ => a)
  {
    var out, r := history + [a], history + seq(1 + len, _ => a);
    assert r[..|out|] == out;
    CopyMatchUnique(out, 1, len, r);
  }

  /** How close to the end the match of such a block may be, its bytes given: eight equal bytes and the last
      literals are of the format if these are five, five equal bytes if these are eight. */
  lemma EndOfBlock(history: seq<byte>, a: byte, last: seq<byte>)
    requires 1 <= |last| < 15
    ensures ContentOf([0x13, a, 0x01, 0x00, 16 * |last|] + last, history)
            == if |last| >= 5 then Some([a, a, a, a, a, a, a, a] + last) else None
    ensures ContentOf([0x10, a, 0x01, 0x00, 16 * |last|] + last, history)
            == if |last| >= 8 then Some([a, a, a, a, a] + last) else None
  {
    hide ContentOf;
    RunAndLast(history, a, 7, last);
    RunAndLast(history, a, 4, last);
    assert seq(8, _ => a) == [a, a, a, a, a, a, a, a];
    assert seq(5, _ => a) == [a, a, a, a, a];
  }

  lemma RunAndLast(history: seq<byte>, a: byte, len: nat, last: seq<byte>)
    requires 1 <= |last| < 15 && 4 <= len < 19
    ensures ContentOf([16 + len - 4, a, 0x01, 0x00, 16 * |last|] + last, history)
            == if len + |last| >= MFLIMIT && |last| >= LASTLITERALS then Some(seq(1 + len, _ => a) + last) else None
  {
    hide ContentOf, CopyMatch, SeqBytes, LastBytes;
    ShortBytes(a, len, last);
    OneSequence(history, Sequence([a], 1, len), last);
    EqualBytes(history, a, len);
    var run := seq(1 + len, _ => a);
    assert (history + run + last)[|history|..] == run + last;
  }

  lemma ShortBytes(a: byte, len: nat, last: seq<byte>)
    requires 1 <= |last| < 15 && 4 <= len < 19
    ensures SeqBytes(Sequence([a], 1, len)) + LastBytes(last)
            == [16 + len - 4, a, 0x01, 0x00, 16 * |last|] + last
  {
    assert ExtOf(1) == [] && ExtOf(len - 4) == [] && ExtOf(|last|) == [];
    assert SeqBytes(Sequence([a], 1, len)) == [16 + len - 4, a, 0x01, 0x00];
    assert LastBytes(last) == [16 * |last|] + last;
  }
}
