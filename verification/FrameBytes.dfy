/** Copies between buffers, and how slices of them relate. */
module FrameBytes {
  import opened Lz4Format
  import opened FrameFormat

  lemma SliceOfSlice(a: seq<byte>, off: nat, n: nat, i: nat, j: nat)
    requires i <= j <= n && off + n <= |a|
    ensures a[off..off + n][i..j] == a[off + i..off + j]
  {
    var l, r := a[off..off + n][i..j], a[off + i..off + j];
    assert forall k :: 0 <= k < j - i ==> l[k] == r[k];
  }

  /** A slice that lies apart from what was written is as it was before. */
  lemma SliceKept(before: seq<byte>, a: array<byte>, i: nat, j: nat, from: nat, to: nat)
    requires |before| == a.Length && i <= j <= a.Length && (j <= from || to <= i)
    requires forall k :: 0 <= k < a.Length && !(from <= k < to) ==> a[k] == before[k]
    ensures a[i..j] == before[i..j]
  {
  }

  predicate EndsWith(s: seq<byte>, t: seq<byte>) {
    |t| <= |s| && s[|s| - |t|..] == t
  }

  lemma EndsMore(s: seq<byte>, t: seq<byte>, x: seq<byte>)
    requires EndsWith(s, t)
    ensures EndsWith(s + x, t + x)
  {
  }

  lemma EndsJoin(s: seq<byte>, t: seq<byte>, x: seq<byte>)
    requires EndsWith(s, x) && EndsWith(s[..|s| - |x|], t)
    ensures EndsWith(s, t + x)
  {
    assert s == s[..|s| - |x|] + x;
    EndsMore(s[..|s| - |x|], t, x);
  }

  lemma EndsBehind(front: seq<byte>, s: seq<byte>, t: seq<byte>)
    requires EndsWith(s, t)
    ensures EndsWith(front + s, t)
  {
  }

  lemma EndsPart(s: seq<byte>, t: seq<byte>, k: nat)
    requires EndsWith(s, t) && k <= |t|
    ensures EndsWith(s, t[k..])
  {
  }

  lemma LongEnd(s: seq<byte>, t: seq<byte>)
    requires EndsWith(s, t) && (|t| >= KB64 || t == s)
    ensures Tail64(t) == Tail64(s)
  {
  }

  /** memcpy between two buffers. */
  method Copy(d: array<byte>, dOff: nat, s: array<byte>, sOff: nat, n: nat)
    requires dOff + n <= d.Length && sOff + n <= s.Length
    requires d == s ==> sOff + n <= dOff || dOff + n <= sOff
    modifies d
    ensures d[dOff..dOff + n] == old(s[sOff..sOff + n])
    ensures forall k :: 0 <= k < d.Length && !(dOff <= k < dOff + n) ==> d[k] == old(d[k])
  {
    forall k | 0 <= k < n { d[dOff + k] := s[sOff + k]; }
  }

  /** What a block decoder may do to the room it is given behind its output: anything. */
  method Spill(a: array<byte>, from: nat, to: nat)
    requires from <= to <= a.Length
    modifies a
    ensures forall k :: 0 <= k < a.Length && !(from <= k < to) ==> a[k] == old(a[k])
  {
    var unknown := new byte[to - from];
    forall k | 0 <= k < to - from { a[from + k] := unknown[k]; }
  }

  /** memcpy in front of position at. */
  method CopyBefore(d: array<byte>, at: nat, s: array<byte>, sOff: nat, n: nat, ghost x: seq<byte>)
    requires n <= at <= d.Length && sOff + n <= s.Length && d != s && x == s[sOff..sOff + n]
    modifies d
    ensures d[..at] == old(d[..at - n]) + x
    ensures d[at..] == old(d[at..])
  {
    Copy(d, at - n, s, sOff, n);
  }

  /** memcpy behind the first at bytes. */
  method CopyAfter(d: array<byte>, at: nat, s: array<byte>, sOff: nat, n: nat, ghost x: seq<byte>)
    requires at + n <= d.Length && sOff + n <= s.Length && d != s && x == s[sOff..sOff + n]
    modifies d
    ensures d[..at + n] == old(d[..at]) + x
  {
    Copy(d, at, s, sOff, n);
  }

  /** memcpy from the input. */
  method CopyIn(d: array<byte>, dOff: nat, s: seq<byte>, sOff: nat, n: nat)
    requires dOff + n <= d.Length && sOff + n <= |s|
    modifies d
    ensures d[dOff..dOff + n] == s[sOff..sOff + n]
    ensures forall k :: 0 <= k < d.Length && !(dOff <= k < dOff + n) ==> d[k] == old(d[k])
  {
    forall k | 0 <= k < n { d[dOff + k] := s[sOff + k]; }
  }
}
