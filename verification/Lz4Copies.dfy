/** The wide copies of the decoder: eight bytes at a time, past the end of what is
    wanted, over source and destination that may overlap. */
module Lz4Copies {
  import opened Lz4Format

  const WILDCOPYLENGTH := 8
  const MATCH_SAFEGUARD_DISTANCE := 2 * WILDCOPYLENGTH - MINMATCH

  const INC32TABLE: seq<int> := [0, 1, 2, 1, 0, 4, 4, 4]
  const DEC64TABLE: seq<int> := [0, 0, 0, -1, -4, 1, 2, 3]

  /** memcpy inside one buffer.  As in C, the two areas must not overlap. */
  method MemCpy(buf: array<byte>, d: nat, s: nat, n: nat)
    requires d + n <= buf.Length && s + n <= buf.Length
    requires s + n <= d || d + n <= s
    modifies buf
    ensures forall k :: 0 <= k < buf.Length && !(d <= k < d + n) ==> buf[k] == old(buf[k])
    ensures forall k :: d <= k < d + n ==> buf[k] == buf[k - d + s]
  {
    forall k | 0 <= k < n { buf[d + k] := buf[s + k]; }
  }

  /** memcpy from another buffer. */
  method MemCpyFrom(buf: array<byte>, d: nat, src: seq<byte>, s: nat, n: nat)
    requires d + n <= buf.Length && s + n <= |src|
    modifies buf
    ensures forall k :: 0 <= k < buf.Length && !(d <= k < d + n) ==> buf[k] == old(buf[k])
    ensures forall k :: d <= k < d + n ==> buf[k] == src[k - d + s]
  {
    forall k | 0 <= k < n { buf[d + k] := src[s + k]; }
  }

  /** LZ4_wildCopy8 inside one buffer: when the source is at least 8 bytes behind the
      destination, every byte written repeats the byte that distance back. */
  method WildCopy8(buf: array<byte>, d0: nat, s0: nat, e: int)
    requires s0 + 8 <= d0 && d0 + 8 <= buf.Length && e + 7 <= buf.Length
    modifies buf
    ensures var end := if e <= d0 + 8 then d0 + 8 else d0 + 8 * ((e - d0 + 7) / 8);
            && e <= end <= buf.Length
            && (forall k :: 0 <= k < buf.Length && !(d0 <= k < end) ==> buf[k] == old(buf[k]))
            && (forall k :: d0 <= k < end ==> buf[k] == buf[k - (d0 - s0)])
  {
    var d, s := d0, s0;
    MemCpy(buf, d, s, 8);
    d, s := d + 8, s + 8;
    ghost var n := 1;
    while d < e
      invariant n >= 1 && d == d0 + 8 * n && s == s0 + 8 * n
      invariant d <= buf.Length && (d < e + 8 || n == 1)
      invariant forall k :: 0 <= k < buf.Length && !(d0 <= k < d) ==> buf[k] == old(buf[k])
      invariant forall k :: d0 <= k < d ==> buf[k] == buf[k - (d0 - s0)]
    {
      MemCpy(buf, d, s, 8);
      d, s := d + 8, s + 8;
      n := n + 1;
    }
  }

  /** LZ4_wildCopy8 from another buffer. */
  method WildCopy8From(buf: array<byte>, d0: nat, src: seq<byte>, s0: nat, e: nat)
    requires d0 <= e && d0 + 8 <= buf.Length && s0 + 8 <= |src|
    requires e + 7 <= buf.Length && s0 + (e - d0) + 7 <= |src|
    modifies buf
    ensures forall k :: 0 <= k < buf.Length && !(d0 <= k < d0 + 8 || d0 <= k < e + 7) ==> buf[k] == old(buf[k])
    ensures buf[d0..e] == src[s0..s0 + (e - d0)]
  {
    var d, s := d0, s0;
    MemCpyFrom(buf, d, src, s, 8);
    d, s := d + 8, s + 8;
    while d < e
      invariant d - d0 == s - s0 && d0 + 8 <= d && (d < e + 8 || d == d0 + 8)
      invariant forall k :: 0 <= k < buf.Length && !(d0 <= k < d) ==> buf[k] == old(buf[k])
      invariant forall k :: d0 <= k < d ==> buf[k] == src[k - d0 + s0]
    {
      MemCpyFrom(buf, d, src, s, 8);
      d, s := d + 8, s + 8;
    }
  }

  // ------------------------------------------------------- overlapping matches

  /** How far behind the destination the source is once the first 8 bytes of a match
      are written: the offset itself, or for a small one the multiple of it that the
      two tables produce. */
  function Stride(offset: nat): (r: nat)
    ensures r >= 8
  {
    if offset >= 8 then offset else 8 + offset - INC32TABLE[offset] + DEC64TABLE[offset]
  }

  /** From the ninth byte on, a match repeats itself at the stride. */
  lemma StrideRepeats(out: seq<byte>, offset: nat, len: nat, k: nat)
    requires offset <= |out| && |out| + 8 <= k < |out| + len
    ensures k >= Stride(offset)
    ensures CopyMatch(out, offset, len)[k] == CopyMatch(out, offset, len)[k - Stride(offset)]
  {
    if offset == 0 {
      CopyMatchAt(out, 0, len, k);
      CopyMatchAt(out, 0, len, k - 8);
    } else {
      var c := if offset >= 8 then 1 else [8, 8, 4, 3, 2, 2, 2, 2][offset];
      CopyMatchMultiple(out, offset, len, c, k);
    }
  }

  /** A sequence that agrees with t on its first n bytes and repeats at a distance at
      which t repeats agrees with t. */
  lemma {:induction false} RepeatAgrees(t: seq<byte>, r: seq<byte>, n: nat, dist: nat)
    requires n <= |r| <= |t| && 0 < dist <= n
    requires forall k :: 0 <= k < n ==> r[k] == t[k]
    requires forall k :: n <= k < |r| ==> r[k] == r[k - dist]
    requires forall k :: n <= k < |r| ==> t[k] == t[k - dist]
    ensures forall k :: 0 <= k < |r| ==> r[k] == t[k]
  {
    var i := n;
    while i < |r|
      invariant n <= i <= |r|
      invariant forall k :: 0 <= k < i ==> r[k] == t[k]
    {
      assert r[i - dist] == t[i - dist];
      i := i + 1;
    }
  }

  // ------------------------------------------------------------- match copying

  /** buf holds the first n bytes of t from position low on. */
  predicate Holds(buf: array<byte>, low: nat, t: seq<byte>, n: nat)
    reads buf
  {
    && n <= |t| && low + n <= buf.Length
    && forall k :: 0 <= k < n ==> buf[low + k] == t[k]
  }

  /** The first 8 bytes of a match, whatever its offset, and where the copy goes on
      reading.  The match is at least len >= 8 bytes long when followed far enough. */
  method CopyFirst8(buf: array<byte>, low: nat, op: nat, offset: nat, ghost len: nat) returns (m: nat)
    requires low + offset <= op && op + 8 <= buf.Length && len >= 8
    modifies buf
    ensures forall k :: 0 <= k < buf.Length && !(op <= k < op + 8) ==> buf[k] == old(buf[k])
    ensures m + Stride(offset) == op + 8
    ensures Holds(buf, low, CopyMatch(old(buf[low..op]), offset, len), op + 8 - low)
  {
    ghost var out := buf[low..op];
    m := op - offset;
    // Keeps the source defined when the offset is 0.
    buf[op], buf[op + 1], buf[op + 2], buf[op + 3] := 0, 0, 0, 0;
    assert forall k :: 0 <= k < |out| ==> buf[low + k] == out[k];
    if offset < 8 {
      Copy4(buf, op, m);
      First4(buf, low, out, offset, len);
      assert TailStep(offset) == 4 + offset - INC32TABLE[offset];
      MemCpy(buf, op + 4, m + INC32TABLE[offset], 4);
      Second4(buf, low, out, offset, len);
      m := m + INC32TABLE[offset] - DEC64TABLE[offset];
    } else {
      MemCpy(buf, op, m, 8);
      First8Far(buf, low, out, offset, len);
      m := m + 8;
    }
  }

  /** Four single bytes, each read after the one before it is written. */
  method Copy4(buf: array<byte>, op: nat, m: nat)
    requires m <= op && op + 4 <= buf.Length
    modifies buf
    ensures forall k :: 0 <= k < buf.Length && !(op <= k < op + 4) ==> buf[k] == old(buf[k])
    ensures m < op ==> forall k :: op <= k < op + 4 ==> buf[k] == buf[k - (op - m)]
    ensures m == op ==> forall k :: op <= k < op + 4 ==> buf[k] == old(buf[k])
  {
    buf[op] := buf[m];
    buf[op + 1] := buf[m + 1];
    buf[op + 2] := buf[m + 2];
    buf[op + 3] := buf[m + 3];
  }

  lemma CopyMatchStart(out: seq<byte>, offset: nat, len: nat)
    requires offset <= |out|
    ensures forall k :: 0 <= k < |out| ==> CopyMatch(out, offset, len)[k] == out[k]
  {
    var t := CopyMatch(out, offset, len);
    assert forall k :: 0 <= k < |out| ==> t[k] == t[..|out|][k];
  }

  lemma First8Far(buf: array<byte>, low: nat, out: seq<byte>, offset: nat, len: nat)
    requires 8 <= offset <= |out| && low + |out| + 8 <= buf.Length && len >= 8
    requires forall k :: 0 <= k < |out| ==> buf[low + k] == out[k]
    requires var op := low + |out|; forall k :: op <= k < op + 8 ==> buf[k] == buf[k - offset]
    ensures Holds(buf, low, CopyMatch(out, offset, len), |out| + 8)
  {
    CopyMatchStart(out, offset, len);
    forall k | |out| <= k < |out| + 8 ensures buf[low + k] == CopyMatch(out, offset, len)[k] {
      CopyMatchAt(out, offset, len, k);
      assert buf[low + k] == buf[low + k - offset] == out[k - offset];
    }
  }

  lemma First4(buf: array<byte>, low: nat, out: seq<byte>, offset: nat, len: nat)
    requires offset <= |out| && low + |out| + 8 <= buf.Length && len >= 8
    requires forall k :: 0 <= k < |out| ==> buf[low + k] == out[k]
    requires var op := low + |out|;
             forall k :: op <= k < op + 4 ==> buf[k] == if offset == 0 then 0 else buf[k - offset]
    ensures Holds(buf, low, CopyMatch(out, offset, len), |out| + 4)
  {
    var t, n := CopyMatch(out, offset, len), |out|;
    CopyMatchStart(out, offset, len);
    CopyMatchAt(out, offset, len, n);
    assert buf[low + n] == t[n];
    CopyMatchAt(out, offset, len, n + 1);
    assert buf[low + n + 1] == t[n + 1];
    CopyMatchAt(out, offset, len, n + 2);
    assert buf[low + n + 2] == t[n + 2];
    CopyMatchAt(out, offset, len, n + 3);
  }

  /** How far behind bytes 4 to 7 are read when the offset is small. */
  function TailStep(offset: nat): nat {
    if offset <= 2 then 4 else if offset <= 4 then 2 * offset else offset
  }

  lemma Second4At(out: seq<byte>, offset: nat, len: nat, k: nat)
    requires offset < 8 && offset <= |out| && |out| + 4 <= k < |out| + len
    ensures TailStep(offset) <= k
    ensures CopyMatch(out, offset, len)[k] == CopyMatch(out, offset, len)[k - TailStep(offset)]
  {
    if offset == 0 {
      CopyMatchAt(out, 0, len, k);
      CopyMatchAt(out, 0, len, k - 4);
    } else {
      CopyMatchMultiple(out, offset, len, if offset == 1 then 4 else if offset <= 4 then 2 else 1, k);
    }
  }

  lemma Second4(buf: array<byte>, low: nat, out: seq<byte>, offset: nat, len: nat)
    requires offset < 8 && offset <= |out| && low + |out| + 8 <= buf.Length && len >= 8
    requires Holds(buf, low, CopyMatch(out, offset, len), |out| + 4)
    requires var op := low + |out|;
             forall k :: op + 4 <= k < op + 8 ==> buf[k] == buf[k - TailStep(offset)]
    ensures Holds(buf, low, CopyMatch(out, offset, len), |out| + 8)
  {
    forall k | |out| + 4 <= k < |out| + 8 ensures buf[low + k] == CopyMatch(out, offset, len)[k] {
      Second4At(out, offset, len, k);
      assert buf[low + k] == buf[low + k - TailStep(offset)];
    }
  }

  /** Bytes written after the first 8 that repeat the stride are bytes of the match. */
  lemma RestOfMatch(buf: array<byte>, low: nat, out: seq<byte>, offset: nat, len: nat, end: nat)
    requires offset <= |out| && low + |out| + 8 <= end <= buf.Length && end <= low + |out| + len
    requires Holds(buf, low, CopyMatch(out, offset, len), |out| + 8)
    requires Stride(offset) <= |out| + 8
    requires var op8 := low + |out| + 8;
             forall k :: op8 <= k < end ==> buf[k] == buf[k - Stride(offset)]
    ensures Holds(buf, low, CopyMatch(out, offset, len), end - low)
  {
    var n := |out| + 8;
    var t, r := CopyMatch(out, offset, len)[..end - low], buf[low..end];
    forall k | n <= k < |r| ensures t[k] == t[k - Stride(offset)] {
      StrideRepeats(out, offset, len, k);
    }
    forall k | n <= k < |r| ensures r[k] == r[k - Stride(offset)] {
      assert buf[low + k] == buf[low + k - Stride(offset)];
    }
    RepeatAgrees(t, r, n, Stride(offset));
    assert forall k :: 0 <= k < end - low ==> buf[low + k] == r[k];
  }

  lemma HoldsMatch(buf: array<byte>, low: nat, out: seq<byte>, offset: nat, len: nat, longer: nat)
    requires offset <= |out| && len <= longer
    requires Holds(buf, low, CopyMatch(out, offset, longer), |out| + len)
    ensures buf[low..low + |out| + len] == CopyMatch(out, offset, len)
  {
    CopyMatchPrefix(out, offset, len, longer);
    var t := CopyMatch(out, offset, longer);
    assert forall k :: 0 <= k < |out| + len ==> t[..|out| + len][k] == t[k];
  }

  /** Copies a match of any offset and length inside buf; oend is the end of the output
      area, and at least 12 bytes of it lie after op.  Fails exactly when the match does
      not leave the last 5 bytes to literals. */
  method CopyMatchInto(buf: array<byte>, low: nat, op0: nat, offset: nat, length: nat, oend: nat)
    returns (ok: bool)
    requires low + offset <= op0 && op0 + MFLIMIT <= oend <= buf.Length && length >= MINMATCH
    modifies buf
    ensures ok <==> op0 + length + LASTLITERALS <= oend
    ensures ok ==> buf[low..op0 + length] == CopyMatch(old(buf[low..op0]), offset, length)
    ensures forall k :: 0 <= k < buf.Length && !(op0 <= k < oend) ==> buf[k] == old(buf[k])
  {
    ghost var out, len := buf[low..op0], oend - op0;
    var cpy := op0 + length;
    var m := CopyFirst8(buf, low, op0, offset, len);
    var op := op0 + 8;
    ghost var end := op;
    if cpy > oend - MATCH_SAFEGUARD_DISTANCE {
      if cpy > oend - LASTLITERALS { return false; }
      end := CopyNearEnd(buf, op, m, cpy, oend);
    } else {
      end := CopyWide(buf, op, m, cpy, length);
    }
    RestOfMatch(buf, low, out, offset, len, end);
    HoldsMatch(buf, low, out, offset, length, len);
    return true;
  }

  /** The rest of a match far from the end: 8 bytes, then wide copies past its end. */
  method CopyWide(buf: array<byte>, op: nat, m: nat, cpy: nat, length: nat) returns (ghost end: nat)
    requires m + 8 <= op && op + 8 <= buf.Length && cpy + 7 <= buf.Length
    requires cpy + 8 == op + length
    modifies buf
    ensures cpy <= end && op <= end <= buf.Length && (end <= cpy + 7 || end == op + 8)
    ensures forall k :: 0 <= k < buf.Length && !(op <= k < end) ==> buf[k] == old(buf[k])
    ensures forall k :: op <= k < end ==> buf[k] == buf[k - (op - m)]
  {
    MemCpy(buf, op, m, 8);
    end := op + 8;
    if length > 16 {
      WildCopy8(buf, op + 8, m + 8, cpy);
      end := op + 8 + 8 * ((cpy - op - 1) / 8);
    }
  }

  /** The rest of a match near the end: wide copies while they cannot pass oend, then
      single bytes. */
  method CopyNearEnd(buf: array<byte>, op0: nat, m0: nat, cpy: nat, oend: nat) returns (ghost end: nat)
    requires m0 + 8 <= op0 && op0 + 4 <= oend && cpy + LASTLITERALS <= oend <= buf.Length
    modifies buf
    ensures cpy <= end && op0 <= end <= oend
    ensures forall k :: 0 <= k < buf.Length && !(op0 <= k < oend) ==> buf[k] == old(buf[k])
    ensures forall k :: op0 <= k < end ==> buf[k] == buf[k - (op0 - m0)]
  {
    var op, m := op0, m0;
    var oCopyLimit := oend - (WILDCOPYLENGTH - 1);
    if op < oCopyLimit {
      WildCopy8(buf, op, m, oCopyLimit);
      m := m + (oCopyLimit - op);
      op := oCopyLimit;
    }
    while op < cpy
      invariant op0 <= op && m == op - (op0 - m0) && (op <= cpy || op == op0 || op == oCopyLimit)
      invariant op <= oend
      invariant forall k :: 0 <= k < buf.Length && !(op0 <= k < oend) ==> buf[k] == old(buf[k])
      invariant forall k :: op0 <= k < op ==> buf[k] == buf[k - (op0 - m0)]
    {
      buf[op] := buf[m];
      op, m := op + 1, m + 1;
    }
    end := op;
  }
}
