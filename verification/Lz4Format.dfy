/** The LZ4 block format: what a block of bytes means, independent of how the
    compressor finds matches and of how the decoder copies them. */
module Lz4Format {

  type byte = x: int | 0 <= x < 256

  datatype Option<+T> = None | Some(value: T)

  const MINMATCH := 4
  const LASTLITERALS := 5
  const MFLIMIT := 12
  const DISTANCE_MAX := 65535
  const U32 := 0x1_0000_0000
  const KB64 := 0x1_0000
  const INT_MAX := 0x7fff_ffff
  const MAX_INPUT_SIZE := 0x7E00_0000

  // ---------------------------------------------------------------- lengths

  /** The bytes that continue a length field whose four token bits are all ones. */
  function Ext(v: nat): (s: seq<byte>)
    ensures |s| == v / 255 + 1
  {
    if v < 255 then [v] else [255] + Ext(v - 255)
  }

  /** Reads such a continuation at position i: its sum and the position after it. */
  function ReadExt(src: seq<byte>, i: nat): (r: Option<(nat, nat)>)
    ensures r.Some? ==> i < r.value.1 <= |src|
    decreases |src| - i
  {
    if i >= |src| then None
    else if src[i] < 255 then Some((src[i], i + 1))
    else match ReadExt(src, i + 1)
      case None => None
      case Some((v, j)) => Some((v + 255, j))
  }

  // ------------------------------------------------------------------ items

  /** One step of a block: the last run of literals, or literals and a match. */
  datatype Item =
    | Bad
    | Last(litStart: nat, litLen: nat)
    | Match(litStart: nat, litLen: nat, offset: nat, matchLen: nat, next: nat)

  /** Where the literals of the step at i start and how many they are.  The sum of
      a long length is kept in 32 bits, as the decoder keeps it. */
  function LitsAt(src: seq<byte>, i: nat): (r: Option<(nat, nat)>)
    ensures r.Some? ==> i < r.value.0 <= |src|
  {
    if i >= |src| then None
    else if src[i] / 16 < 15 then Some((i + 1, src[i] / 16))
    else match ReadExt(src, i + 1)
      case None => None
      case Some((v, j)) => Some((j, 15 + v % U32))
  }

  /** The match length of a step with this token whose length bytes start at j. */
  function MatchLenAt(src: seq<byte>, token: byte, j: nat): (r: Option<(nat, nat)>)
    requires j <= |src|
    ensures r.Some? ==> r.value.0 >= MINMATCH && j <= r.value.1 <= |src|
  {
    if token % 16 < 15 then Some((token % 16 + MINMATCH, j))
    else match ReadExt(src, j)
      case None => None
      case Some((v, k)) => Some((15 + v % U32 + MINMATCH, k))
  }

  function LE16(lo: byte, hi: byte): nat {
    (lo as nat) + 256 * (hi as nat)
  }

  function ItemAt(src: seq<byte>, i: nat): (r: Item)
    ensures r.Last? ==> i < r.litStart && r.litStart + r.litLen == |src|
    ensures r.Match? ==> i < r.litStart && r.litStart + r.litLen + 2 <= r.next <= |src|
    ensures r.Match? ==> 0 <= r.offset <= DISTANCE_MAX && r.matchLen >= MINMATCH
  {
    match LitsAt(src, i)
    case None => Bad
    case Some((ls, ll)) =>
      var e := ls + ll;
      if e == |src| then Last(ls, ll)
      else if e + 2 > |src| then Bad
      else match MatchLenAt(src, src[i], e + 2)
        case None => Bad
        case Some((ml, next)) => Match(ls, ll, LE16(src[e], src[e + 1]), ml, next)
  }

  // ---------------------------------------------------------------- meaning

  /** The byte a match appends.  Offset 0 is not part of the format; the decoder
      writes zeros for it. */
  function BackByte(out: seq<byte>, offset: nat): byte
    requires offset <= |out|
  {
    if offset == 0 then 0 else out[|out| - offset]
  }

  /** Appends len bytes, one at a time, each from offset bytes back. */
  function CopyMatch(out: seq<byte>, offset: nat, len: nat): (r: seq<byte>)
    requires offset <= |out|
    ensures |r| == |out| + len && r[..|out|] == out
    decreases len
  {
    if len == 0 then out
    else CopyMatch(out + [BackByte(out, offset)], offset, len - 1)
  }

  function Lits(src: seq<byte>, it: Item): seq<byte>
    requires !it.Bad? && it.litStart + it.litLen <= |src|
  {
    src[it.litStart..it.litStart + it.litLen]
  }

  /** The output after a step with a match, its literals and match appended to out. */
  function Apply(src: seq<byte>, it: Item, out: seq<byte>): (r: seq<byte>)
    requires it.Match? && it.litStart + it.litLen <= |src| && it.offset <= |out| + it.litLen
    ensures |r| == |out| + it.litLen + it.matchLen && r[..|out|] == out
  {
    var r := CopyMatch(out + Lits(src, it), it.offset, it.matchLen);
    assert r[..|out|] == r[..|out| + it.litLen][..|out|];
    r
  }

  /** Reference decoder: the bytes of src from i on, replayed onto out, which holds the
      history followed by what has been decoded so far. */
  function Decode(src: seq<byte>, i: nat, out: seq<byte>): (r: Option<seq<byte>>)
    ensures r.Some? ==> |out| <= |r.value| && r.value[..|out|] == out
    decreases |src| - i
  {
    var it := ItemAt(src, i);
    match it
    case Bad => None
    case Last(_, _) => Some(out + Lits(src, it))
    case Match(_, ll, offset, _, next) =>
      if offset > |out| + ll then None
      else
        var out' := Apply(src, it, out);
        var r := Decode(src, next, out');
        assert r.Some? ==> r.value[..|out'|][..|out|] == r.value[..|out|];
        r
  }

  lemma DecodeLastItem(src: seq<byte>, i: nat, out: seq<byte>, it: Item)
    requires it.Last? && it == ItemAt(src, i)
    ensures Decode(src, i, out) == Some(out + Lits(src, it))
  {
  }

  lemma DecodeMatch(src: seq<byte>, i: nat, out: seq<byte>, it: Item)
    requires it.Match? && it == ItemAt(src, i) && it.offset <= |out| + it.litLen
    ensures Decode(src, i, out) == Decode(src, it.next, Apply(src, it, out))
  {
  }

  /** The end-of-block restrictions, for a block that decodes to total bytes of which
      pos precede the step at i: the last match starts at least 12 bytes before the end
      and every match leaves at least 5 bytes of literals after it. */
  predicate Restricted(src: seq<byte>, i: nat, pos: nat, total: nat)
    decreases |src| - i
  {
    match ItemAt(src, i)
    case Bad => false
    case Last(_, ll) => pos + ll == total
    case Match(_, ll, _, ml, next) =>
      && pos + ll + MFLIMIT <= total
      && pos + ll + ml + LASTLITERALS <= total
      && Restricted(src, next, pos + ll + ml, total)
  }

  /** The content of a block that the format allows, given the history before it. */
  function ContentOf(src: seq<byte>, history: seq<byte>): Option<seq<byte>> {
    match Decode(src, 0, history)
    case None => None
    case Some(r) => if Restricted(src, 0, 0, |r| - |history|) then Some(r[|history|..]) else None
  }

  lemma RestrictedMatch(src: seq<byte>, i: nat, pos: nat, total: nat, it: Item)
    requires it.Match? && it == ItemAt(src, i)
    ensures Restricted(src, i, pos, total) <==>
            && pos + it.litLen + MFLIMIT <= total
            && pos + it.litLen + it.matchLen + LASTLITERALS <= total
            && Restricted(src, it.next, pos + it.litLen + it.matchLen, total)
  {
  }

  /** A block that the format allows: it decodes, after history, to content. */
  predicate Encodes(src: seq<byte>, history: seq<byte>, content: seq<byte>) {
    ContentOf(src, history) == Some(content)
  }

  lemma EncodesMeans(src: seq<byte>, history: seq<byte>, content: seq<byte>)
    ensures Encodes(src, history, content) <==>
            Decode(src, 0, history) == Some(history + content) && Restricted(src, 0, 0, |content|)
  {
    hide Decode, Restricted;
    var d := Decode(src, 0, history);
    if d.Some? {
      assert d.value == d.value[..|history|] + d.value[|history|..];
      if d.value == history + content {
        assert d.value[|history|..] == content;
      }
    }
  }

  // ------------------------------------------------------- facts about copies

  lemma {:induction false} CopyMatchAt(out: seq<byte>, offset: nat, len: nat, k: nat)
    requires offset <= |out| && |out| <= k < |out| + len
    ensures CopyMatch(out, offset, len)[k] ==
            if offset == 0 then 0 else CopyMatch(out, offset, len)[k - offset]
    decreases len
  {
    var out' := out + [BackByte(out, offset)];
    if k == |out| {
      assert CopyMatch(out', offset, len - 1)[..|out'|] == out';
      assert CopyMatch(out, offset, len)[k] == out'[k];
      if offset != 0 {
        assert CopyMatch(out, offset, len)[k - offset] == out'[k - offset];
      }
    } else {
      CopyMatchAt(out', offset, len - 1, k);
    }
  }

  /** What CopyMatch builds is the only sequence that extends out and repeats itself
      at the given distance. */
  lemma {:induction false} CopyMatchUnique(out: seq<byte>, offset: nat, len: nat, r: seq<byte>)
    requires 0 < offset <= |out| && |r| == |out| + len && r[..|out|] == out
    requires forall k :: |out| <= k < |r| ==> r[k] == r[k - offset]
    ensures r == CopyMatch(out, offset, len)
    decreases len
  {
    if len > 0 {
      var out' := out + [BackByte(out, offset)];
      assert r[|out| - offset] == r[..|out|][|out| - offset];
      assert r[..|out'|] == out';
      CopyMatchUnique(out', offset, len - 1, r);
    } else {
      assert r == r[..|out|];
    }
  }

  /** A prefix of a longer copy is the shorter copy. */
  lemma {:induction false} CopyMatchPrefix(out: seq<byte>, offset: nat, len: nat, longer: nat)
    requires offset <= |out| && len <= longer
    ensures CopyMatch(out, offset, longer)[..|out| + len] == CopyMatch(out, offset, len)
    decreases len
  {
    if len > 0 {
      CopyMatchPrefix(out + [BackByte(out, offset)], offset, len - 1, longer - 1);
    }
  }

  /** Reading any whole number of offsets back gives the same byte. */
  lemma {:induction false} CopyMatchMultiple(out: seq<byte>, offset: nat, len: nat, c: nat, k: nat)
    requires 0 < offset <= |out| && |out| <= k < |out| + len
    requires c > 0 && |out| <= k - (c - 1) * offset
    ensures 0 <= k - c * offset
    ensures CopyMatch(out, offset, len)[k] == CopyMatch(out, offset, len)[k - c * offset]
    decreases c
  {
    CopyMatchAt(out, offset, len, k);
    if c > 1 {
      assert k - offset - (c - 2) * offset == k - (c - 1) * offset;
      assert (c - 2) * offset >= 0;
      CopyMatchMultiple(out, offset, len, c - 1, k - offset);
      assert k - offset - (c - 1) * offset == k - c * offset;
    }
  }

  function Min(a: nat, b: nat): nat { if a < b then a else b }

  function Max(a: int, b: int): int { if a > b then a else b }

  function Power2(n: nat): (r: nat)
    ensures r > 0
  {
    if n == 0 then 1 else 2 * Power2(n - 1)
  }

  /** What a quotient and a remainder are. */
  lemma QuotientIs(v: nat, d: nat, q: nat, r: nat)
    requires d > 0 && v == d * q + r && r < d
    ensures v / d == q && v % d == r
  {
    var e := v / d - q;
    assert d * e == r - v % d;
  }
}
