/** Writing one sequence into the output buffer: tokens, length bytes, literals copied
    eight at a time, offsets. */
module Lz4Emit {
  import opened Lz4Format
  import opened Lz4Copies
  import opened Lz4Sequences

  /** The only bytes for a length rest of v: as many 255s as fit and the remainder. */
  lemma {:induction false} ExtIs(v: nat, s: seq<byte>)
    requires |s| == v / 255 + 1 && s[v / 255] == v % 255
    requires forall k :: 0 <= k < v / 255 ==> s[k] == 255
    ensures s == Ext(v)
    decreases v
  {
    if v >= 255 {
      ExtIs(v - 255, s[1..]);
      assert s == [s[0]] + s[1..];
    } else {
      assert s == [s[0]];
    }
  }

  /** The loop that writes the rest of a literal length. */
  method EmitRun(dest: array<byte>, op0: nat, v: nat) returns (op: nat)
    requires op0 + |Ext(v)| <= dest.Length
    modifies dest
    ensures op == op0 + |Ext(v)| && dest[op0..op] == Ext(v)
    ensures forall k :: 0 <= k < dest.Length && !(op0 <= k < op) ==> dest[k] == old(dest[k])
  {
    var len := v;
    op := op0;
    while len >= 255
      invariant op0 <= op && 0 <= len && len + 255 * (op - op0) == v
      invariant op + |Ext(len)| == op0 + |Ext(v)|
      invariant forall k :: op0 <= k < op ==> dest[k] == 255
      invariant forall k :: 0 <= k < dest.Length && !(op0 <= k < op) ==> dest[k] == old(dest[k])
    {
      dest[op] := 255;
      op, len := op + 1, len - 255;
    }
    dest[op] := len;
    op := op + 1;
    ExtIs(v, dest[op0..op]);
  }

  /** Token and literals of a sequence; the match bits of the token stay 0. */
  method EmitLiterals(dest: array<byte>, token: nat, src: seq<byte>, anchor: nat, ll: nat) returns (op: nat)
    requires anchor + ll + 8 <= |src|
    requires token + 1 + |ExtOf(ll)| + ll + 7 <= dest.Length && token + 1 + |ExtOf(ll)| + 8 <= dest.Length
    modifies dest
    ensures op == token + 1 + |ExtOf(ll)| + ll
    ensures dest[token..op] == LitBytes(16 * Nibble(ll), src[anchor..anchor + ll])
    ensures forall k :: 0 <= k < token ==> dest[k] == old(dest[k])
  {
    op := token + 1;
    if ll >= 15 {
      dest[token] := 15 * 16;
      op := EmitRun(dest, op, ll - 15);
    } else {
      dest[token] := ll * 16;
    }
    assert dest[token + 1..op] == ExtOf(ll);
    var at := op;
    op := at + ll;
    WildCopy8From(dest, at, src, anchor, op);
    assert dest[token + 1..at] == ExtOf(ll);
    LitBytesAt(dest[..], token, at, op, src[anchor..anchor + ll]);
  }

  /** The last run: token, length and literals, to the end of the block. */
  method EmitLast(dest: array<byte>, op0: nat, src: seq<byte>, anchor: nat, lastRun: nat) returns (op: nat)
    requires anchor + lastRun <= |src|
    requires op0 + 1 + |ExtOf(lastRun)| + lastRun <= dest.Length
    modifies dest
    ensures op == op0 + 1 + |ExtOf(lastRun)| + lastRun
    ensures dest[op0..op] == LastBytes(src[anchor..anchor + lastRun])
    ensures forall k :: 0 <= k < op0 ==> dest[k] == old(dest[k])
  {
    hide LitBytes;
    op := op0 + 1;
    if lastRun >= 15 {
      dest[op0] := 15 * 16;
      op := EmitRun(dest, op, lastRun - 15);
    } else {
      dest[op0] := lastRun * 16;
    }
    ghost var at, ext := op, dest[op0 + 1..op];
    assert ext == ExtOf(lastRun);
    MemCpyFrom(dest, op, src, anchor, lastRun);
    op := op + lastRun;
    assert dest[op0 + 1..at] == ext;
    LitBytesAt(dest[..], op0, at, op, src[anchor..anchor + lastRun]);
  }

  lemma LitBytesAt(d: seq<byte>, token: nat, at: nat, op: nat, lits: seq<byte>)
    requires token < at <= op <= |d|
    requires d[token + 1..at] == ExtOf(|lits|) && d[at..op] == lits
    ensures d[token..op] == LitBytes(d[token], lits)
  {
    assert d[token..op] == [d[token]] + (d[token + 1..at] + d[at..op]);
  }

  method EmitOffset(dest: array<byte>, op0: nat, offset: nat) returns (op: nat)
    requires op0 + 2 <= dest.Length && offset < 65536
    modifies dest
    ensures op == op0 + 2 && dest[op0..op] == LE16Bytes(offset)
    ensures forall k :: 0 <= k < dest.Length && !(op0 <= k < op) ==> dest[k] == old(dest[k])
  {
    dest[op0], dest[op0 + 1] := offset % 256, offset / 256;
    op := op0 + 2;
  }

  method Write32Ones(dest: array<byte>, op: nat)
    requires op + 4 <= dest.Length
    modifies dest
    ensures forall k :: 0 <= k < dest.Length ==>
              dest[k] == if op <= k < op + 4 then 255 else old(dest[k])
  {
    dest[op], dest[op + 1], dest[op + 2], dest[op + 3] := 255, 255, 255, 255;
  }

  /** The match bits of the token and the rest of the match length, four bytes of value
      255 at a time. */
  method EmitMatchLength(dest: array<byte>, token: nat, op0: nat, mc: nat) returns (op: nat)
    requires token < op0 && (mc >= 15 ==> op0 + (mc - 15) / 255 + 4 <= dest.Length) && op0 <= dest.Length
    requires dest[token] % 16 == 0
    modifies dest
    ensures op == op0 + |ExtOf(mc)| && op <= dest.Length
    ensures dest[token] == old(dest[token]) + Nibble(mc)
    ensures dest[op0..op] == ExtOf(mc)
    ensures forall k :: 0 <= k < op0 && k != token ==> dest[k] == old(dest[k])
  {
    op := op0;
    if mc < 15 {
      dest[token] := dest[token] + mc;
      return;
    }
    dest[token] := dest[token] + 15;
    var v := mc - 15;
    Write32Ones(dest, op);
    while v >= 4 * 255
      invariant op0 <= op && v + 255 * (op - op0) == mc - 15
      invariant op + 4 <= dest.Length
      invariant forall k :: op0 <= k < op + 4 ==> dest[k] == 255
      invariant dest[token] == old(dest[token]) + 15
      invariant forall k :: 0 <= k < op0 && k != token ==> dest[k] == old(dest[k])
    {
      op := op + 4;
      Write32Ones(dest, op);
      v := v - 4 * 255;
    }
    op := op + v / 255;
    dest[op] := v % 255;
    op := op + 1;
    ExtIs(mc - 15, dest[op0..op]);
  }
}
