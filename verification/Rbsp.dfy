/** Emulation prevention in H.264 NAL units, and the splitting of a packet into units. */
module Rbsp {
  import opened Lz4Format

  // ------------------------------------------------------------ what is meant

  /** Two zeros and a 1, 2 or 3 at the head: the end of the unit, or a byte to take out. */
  predicate Trigger(s: seq<byte>) {
    |s| > 2 && s[0] == 0 && s[1] == 0 && 1 <= s[2] <= 3
  }

  /** The payload, how much of the input it takes, and where (in the payload) a byte was taken out. */
  datatype Extracted = Extracted(data: seq<byte>, read: nat, skipped: seq<nat>)

  function Behind(data: seq<byte>, read: nat, skipped: seq<nat>, x: Extracted): Extracted {
    Extracted(data + x.data, read + x.read, skipped + x.skipped)
  }

  /** From left to right, byte by byte, when n bytes are out already. */
  function Naive(s: seq<byte>, n: nat): Extracted
    decreases |s|
  {
    if s == [] || (Trigger(s) && s[2] != 3) then Extracted([], 0, [])
    else if Trigger(s) then Behind([0, 0], 3, [n + 1], Naive(s[3..], n + 2))
    else Behind([s[0]], 1, [], Naive(s[1..], n + 1))
  }

  lemma BehindBehind(a: seq<byte>, i: nat, k: seq<nat>, b: seq<byte>, j: nat, l: seq<nat>, x: Extracted)
    ensures Behind(a, i, k, Behind(b, j, l, x)) == Behind(a + b, i + j, k + l, x)
  {
    assert a + (b + x.data) == (a + b) + x.data && k + (l + x.skipped) == (k + l) + x.skipped;
  }

  /** The payload as sections 7.3.1 and 7.4.1 of ITU-T H.264 have it written, behind z zeros. */
  function Escape(r: seq<byte>, z: nat): seq<byte>
    requires z <= 2
    decreases |r|, z
  {
    if r == [] then (if z == 2 then [3] else [])
    else if z == 2 && r[0] <= 3 then [3] + Escape(r, 0)
    else [r[0]] + Escape(r[1..], if r[0] == 0 then z + 1 else 0)
  }

  /** The byte that is taken out, and the two that end a unit. */
  lemma ExtractedBytes(b: byte, t: seq<byte>, n: nat)
    requires b > 0
    ensures Naive([0, 0, 3, b], n) == Extracted([0, 0, b], 4, [n + 1])
    ensures Naive([0, 0, 1] + t, n) == Naive([0, 0, 2] + t, n) == Extracted([], 0, [])
  {
    var s := [0, 0, 3, b];
    assert s[3..] == [b] && [b] + [] == [b];
    OneKept(b, [], n + 2);
    assert Naive([b], n + 2) == Behind([b], 1, [], Naive([], n + 3)) == Extracted([b], 1, []);
    assert Naive(s, n) == Behind([0, 0], 3, [n + 1], Naive(s[3..], n + 2));
  }

  /** A third zero stays, and so does a byte above 3. */
  lemma KeptBytes(c: byte, n: nat)
    requires c == 0 || c > 3
    ensures Naive([0, 0, c], n) == Extracted([0, 0, c], 3, [])
  {
    OneKept(0, [0, c], n);
    OneKept(0, [c], n + 1);
    OneKept(c, [], n + 2);
  }

  lemma OneKept(a: byte, s: seq<byte>, n: nat)
    requires !Trigger([a] + s)
    ensures Naive([a] + s, n) == Behind([a], 1, [], Naive(s, n + 1))
  {
    assert ([a] + s)[0] == a && ([a] + s)[1..] == s;
  }

  /** What is put in: before a byte of at most 3 that follows two zeros, and after two zeros at the end. */
  lemma EscapedBytes(a: byte)
    ensures Escape([0, 0, a], 0) == if a == 0 then [0, 0, 3, 0] else if a <= 3 then [0, 0, 3, a] else [0, 0, a]
    ensures Escape([0, 0], 0) == [0, 0, 3]
  {
    assert [0, 0, a][1..] == [0, a] && [0, a][1..] == [a] && [a][1..] == [];
    assert Escape([], 0) == [] && Escape([], 1) == [];
    assert Escape([a], 0) == [a];
    assert Escape([a], 2) == if a <= 3 then [3, a] else [a];
    assert Escape([0, a], 1) == [0] + Escape([a], 2);
    assert [0, 0][1..] == [0] && [0][1..] == [];
  }

  function Zeros(n: nat): seq<byte> { seq(n, _ => 0) }

  /** What may come behind a unit: nothing, or something that begins with a start code. */
  predicate Boundary(follow: seq<byte>) {
    follow == [] || (Trigger(follow) && follow[2] != 3)
  }

  /** Taking the bytes out again gives the payload back, and stops where the unit ends. */
  lemma {:induction false} Unescape(r: seq<byte>, z: nat, follow: seq<byte>, n: nat)
    requires z <= 2 && Boundary(follow)
    ensures var x := Naive(Zeros(z) + Escape(r, z) + follow, n);
            x.data == Zeros(z) + r && x.read == z + |Escape(r, z)|
    decreases |r|, z, 1
  {
    hide Naive, Boundary, Zeros;
    var s := Zeros(z) + Escape(r, z) + follow;
    NoZeros();
    if r == [] {
      UnescapeEnd(z, follow, n);
      assert Zeros(z) + r == Zeros(z);
    } else if r[0] == 0 && z < 2 {
      Unescape(r[1..], z + 1, follow, n);
      OneMoreZero(z, Escape(r[1..], z + 1));
      OneMoreZero(z, r[1..]);
      assert r == [0] + r[1..];
    } else if z == 2 && r[0] <= 3 {
      Unescape(r, 0, follow, n + 2);
      var t := Escape(r, 0) + follow;
      assert s == Zeros(2) + [3] + t && Zeros(0) + Escape(r, 0) + follow == t && Zeros(0) + r == r;
      TakesOut(t, n);
    } else {
      UnescapePlain(r, z, follow, n);
    }
  }

  lemma {:induction false} UnescapePlain(r: seq<byte>, z: nat, follow: seq<byte>, n: nat)
    requires z <= 2 && Boundary(follow) && r != [] && r[0] != 0 && (z == 2 ==> r[0] > 3)
    ensures var x := Naive(Zeros(z) + Escape(r, z) + follow, n);
            x.data == Zeros(z) + r && x.read == z + |Escape(r, z)|
    decreases |r|, z, 0
  {
    hide *;
    var a, b, q := Zeros(z), r[0], r[1..];
    var e := Escape(q, 0);
    PlainEscape(r, z);
    NoZeros();
    Unescape(q, 0, follow, n + z + 1);
    assert Zeros(0) + e + follow == e + follow && Zeros(0) + q == q;
    ZerosLength(z);
    PlainBytes(a, b, e + follow, n);
    Regroup(a, b, e, follow);
    Regroup(a, b, q, []);
    BehindData(a + [b], z + 1, [], Naive(e + follow, n + z + 1));
  }

  lemma PlainEscape(r: seq<byte>, z: nat)
    requires z <= 2 && r != [] && r[0] != 0 && (z == 2 ==> r[0] > 3)
    ensures Escape(r, z) == [r[0]] + Escape(r[1..], 0) && r == [r[0]] + r[1..]
  {
  }

  lemma Regroup(a: seq<byte>, b: byte, c: seq<byte>, d: seq<byte>)
    ensures a + ([b] + c) + d == a + [b] + (c + d) && c + [] == c && a + ([b] + c) == a + [b] + c
  {
  }

  lemma BehindData(a: seq<byte>, i: nat, k: seq<nat>, x: Extracted)
    ensures Behind(a, i, k, x).data == a + x.data && Behind(a, i, k, x).read == i + x.read
  {
  }

  lemma NoZeros()
    ensures Zeros(0) == []
  {
  }

  lemma ZerosLength(n: nat)
    ensures |Zeros(n)| == n
  {
  }

  lemma OneMoreZero(z: nat, t: seq<byte>)
    ensures Zeros(z + 1) + t == Zeros(z) + ([0] + t)
  {
  }

  lemma TakesOut(t: seq<byte>, n: nat)
    ensures Naive(Zeros(2) + [3] + t, n) == Behind(Zeros(2), 3, [n + 1], Naive(t, n + 2))
  {
    var s := Zeros(2) + [3] + t;
    assert s[3..] == t && Zeros(2) == [0, 0];
  }

  lemma UnescapeEnd(z: nat, follow: seq<byte>, n: nat)
    requires z <= 2 && Boundary(follow)
    ensures var x := Naive(Zeros(z) + Escape([], z) + follow, n);
            x.data == Zeros(z) && x.read == z + |Escape([], z)|
  {
    var s := Zeros(z) + Escape([], z) + follow;
    if z == 2 {
      assert s[3..] == follow;
    } else if z == 1 {
      assert s[1..] == follow;
    } else {
      assert s == follow;
    }
  }

  /** At most two zeros and a byte that is neither zero nor an escape: all are kept. */
  lemma PlainBytes(a: seq<byte>, b: byte, t: seq<byte>, n: nat)
    requires |a| <= 2 && a == Zeros(|a|) && b != 0 && (|a| == 2 ==> b > 3)
    ensures Naive(a + [b] + t, n) == Behind(a + [b], |a| + 1, [], Naive(t, n + |a| + 1))
  {
    var s := a + [b] + t;
    if a == [] {
      assert s[1..] == t;
    } else {
      assert s[1..] == a[1..] + [b] + t && s[0] == 0;
      PlainBytes(a[1..], b, t, n + 1);
      BehindBehind([0], 1, [], a[1..] + [b], |a|, [], Naive(t, n + |a| + 1));
      assert [0] + (a[1..] + [b]) == a + [b] && a[1..] == Zeros(|a| - 1);
    }
  }

  /** What section 7.4.1 forbids inside a unit: 000000, 000001, 000002, a 000003 before a byte over
      3, and a last 0000. */
  predicate Legal(s: seq<byte>) {
    |s| < 2 || (LegalHead(s) && Legal(s[1..]))
  }

  predicate LegalHead(s: seq<byte>)
    requires |s| >= 2
  {
    s[0] == 0 && s[1] == 0 ==> |s| > 2 && s[2] >= 3 && (s[2] == 3 && |s| > 3 ==> s[3] <= 3)
  }

  /** A written unit is legal. */
  lemma {:induction false} EscapeLegal(r: seq<byte>, z: nat)
    requires z <= 2
    ensures Legal(Zeros(z) + Escape(r, z))
    decreases |r|, z
  {
    hide Legal, Zeros;
    NoZeros();
    if r == [] {
      EndLegal(z);
    } else if r[0] == 0 && z < 2 {
      EscapeLegal(r[1..], z + 1);
      OneMoreZero(z, Escape(r[1..], z + 1));
    } else if z == 2 && r[0] <= 3 {
      EscapeLegal(r, 0);
      var t := Escape(r, 0);
      assert Zeros(0) + t == t && t[0] == r[0];
      LegalBehind(2, 3, t);
      assert Zeros(2) + ([3] + t) == Zeros(2) + [3] + t;
    } else {
      EscapeLegal(r[1..], 0);
      var t := Escape(r[1..], 0);
      assert Zeros(0) + t == t && Zeros(z) + ([r[0]] + t) == Zeros(z) + [r[0]] + t;
      LegalBehind(z, r[0], t);
    }
  }

  lemma EndLegal(z: nat)
    requires z <= 2
    ensures Legal(Zeros(z) + Escape([], z))
  {
  }

  lemma LegalBehind(z: nat, b: byte, t: seq<byte>)
    requires z <= 2 && b != 0 && Legal(t) && (z == 2 ==> b > 3 || (b == 3 && t != [] && t[0] <= 3))
    ensures Legal(Zeros(z) + [b] + t)
  {
    var s := Zeros(z) + [b] + t;
    if z == 0 {
      assert s[1..] == t;
    } else {
      assert s[1..] == Zeros(z - 1) + [b] + t;
      LegalBehind(z - 1, b, t);
    }
  }

  /** And every legal unit is one that was written: taking out and putting in are inverses. */
  lemma {:induction false} EscapeOnto(s: seq<byte>, z: nat, n: nat)
    requires z <= 2 && Legal(Zeros(z) + s)
    ensures var x := Naive(Zeros(z) + s, n);
            |x.data| >= z && x.data[..z] == Zeros(z) && Escape(x.data[z..], z) == s && x.read == z + |s|
    decreases |s|, z
  {
    hide Naive, Legal, Zeros;
    var w := Zeros(z) + s;
    NoZeros();
    ZerosLength(z);
    if s == [] {
      assert w == Zeros(z);
      OntoEnd(z, n);
      assert Naive(w, n).data[z..] == [];
    } else if s[0] == 0 && z < 2 {
      OneMoreZero(z, s[1..]);
      assert s == [0] + s[1..];
      EscapeOnto(s[1..], z + 1, n);
      ZerosPart(z, Naive(w, n).data);
    } else if z == 2 && s[0] == 3 {
      OntoEscaped(w, s, n);
    } else {
      var b, t := s[0], s[1..];
      assert s == [b] + t && w == Zeros(z) + [b] + t;
      PlainLegal(z, b, t);
      PlainBytes(Zeros(z), b, t, n);
      assert Zeros(0) + t == t;
      EscapeOnto(t, 0, n + z + 1);
      var x, y := Naive(w, n), Naive(t, n + z + 1);
      assert y.data[0..] == y.data && x.data[..z] == Zeros(z);
      assert x.data[z..] == [b] + y.data;
    }
  }

  lemma OntoEnd(z: nat, n: nat)
    requires z <= 2 && Legal(Zeros(z))
    ensures z < 2 && Naive(Zeros(z), n) == Extracted(Zeros(z), z, [])
  {
    if z == 1 { assert Zeros(1)[1..] == []; }
  }

  lemma ZerosPart(z: nat, d: seq<byte>)
    requires |d| > z && d[..z + 1] == Zeros(z + 1)
    ensures d[..z] == Zeros(z) && d[z..] == [0] + d[z + 1..]
  {
    assert d[..z] == d[..z + 1][..z] && d[z] == d[..z + 1][z];
  }

  lemma PlainLegal(z: nat, b: byte, t: seq<byte>)
    requires z <= 2 && Legal(Zeros(z) + [b] + t) && (b == 0 ==> z == 2) && (b == 3 ==> z < 2)
    ensures Legal(t) && b != 0 && (z == 2 ==> b > 3)
  {
    var w := Zeros(z) + [b] + t;
    LegalEnd(w, z + 1);
    assert w[z + 1..] == t;
    if z == 2 { assert LegalHead(w); }
  }

  lemma OntoEscaped(w: seq<byte>, s: seq<byte>, n: nat)
    requires w == Zeros(2) + s && s != [] && s[0] == 3 && Legal(w)
    ensures var x := Naive(w, n);
            |x.data| >= 2 && x.data[..2] == Zeros(2) && Escape(x.data[2..], 2) == s && x.read == 2 + |s|
    decreases |s|, 1
  {
    hide Naive, Zeros;
    var t := s[1..];
    assert s == [3] + t && w == Zeros(2) + [3] + t && Zeros(0) + t == t by { NoZeros(); }
    EscapedLegal(t);
    TakesOut(t, n);
    EscapeOnto(t, 0, n + 2);
    ZerosLength(2);
    var x, y := Naive(w, n), Naive(t, n + 2);
    assert x.data[2..] == y.data && y.data[0..] == y.data;
    if t != [] { FirstKept(t, n + 2); }
  }

  lemma EscapedLegal(t: seq<byte>)
    requires Legal(Zeros(2) + [3] + t)
    ensures Legal(t) && (t != [] ==> t[0] <= 3)
  {
    var w := Zeros(2) + [3] + t;
    LegalEnd(w, 3);
    assert w[3..] == t && LegalHead(w);
  }

  lemma FirstKept(s: seq<byte>, n: nat)
    requires s != [] && Legal(s)
    ensures var d := Naive(s, n).data; d != [] && d[0] == s[0]
  {
  }

  lemma LegalEnd(s: seq<byte>, k: nat)
    requires Legal(s) && k <= |s|
    ensures Legal(s[k..])
  {
    if k > 0 && |s| > 1 {
      LegalEnd(s[1..], k - 1);
      assert s[k..] == s[1..][k - 1..];
    } else if k == 0 {
      assert s[k..] == s;
    }
  }

  // ------------------------------------------------------------- the extractor

  predicate TriggerAt(s: seq<byte>, j: nat) {
    j + 2 < |s| && s[j] == 0 && s[j + 1] == 0 && 1 <= s[j + 2] <= 3
  }

  predicate Quiet(s: seq<byte>, i: nat) {
    forall j: nat :: j < i ==> !TriggerAt(s, j)
  }

  /** What is done and what is left make up the whole. */
  predicate Progress(src: seq<byte>, out: seq<byte>, si: nat, skipped: seq<nat>)
    requires si <= |src|
  {
    Naive(src, 0) == Behind(out, si, skipped, Naive(src[si..], |out|))
  }

  lemma Start(src: seq<byte>)
    ensures Progress(src, [], 0, [])
  {
    hide Naive;
    assert src[0..] == src;
  }

  lemma KeepOne(src: seq<byte>, out: seq<byte>, si: nat, skipped: seq<nat>)
    requires si < |src| && !TriggerAt(src, si) && Progress(src, out, si, skipped)
    ensures Progress(src, out + [src[si]], si + 1, skipped)
  {
    var s := src[si..];
    assert s[1..] == src[si + 1..] && s[0] == src[si] && !Trigger(s);
    BehindBehind(out, si, skipped, [src[si]], 1, [], Naive(s[1..], |out| + 1));
    assert skipped + [] == skipped;
  }

  lemma TakeOut(src: seq<byte>, out: seq<byte>, si: nat, skipped: seq<nat>)
    requires TriggerAt(src, si) && src[si + 2] == 3 && Progress(src, out, si, skipped)
    ensures Progress(src, out + [0, 0], si + 3, skipped + [|out| + 1])
  {
    var s := src[si..];
    assert s[3..] == src[si + 3..] && Trigger(s) && s[2] == 3;
    BehindBehind(out, si, skipped, [0, 0], 3, [|out| + 1], Naive(s[3..], |out| + 2));
  }

  lemma Finish(src: seq<byte>, out: seq<byte>, si: nat, skipped: seq<nat>)
    requires si <= |src| && Progress(src, out, si, skipped)
    requires si == |src| || (TriggerAt(src, si) && src[si + 2] != 3)
    ensures Naive(src, 0) == Extracted(out, si, skipped)
  {
    var s := src[si..];
    assert si < |src| ==> Trigger(s) && s[2] != 3;
  }

  lemma {:induction false} QuietPrefix(src: seq<byte>, i: nat)
    requires i <= |src| && Quiet(src, i)
    ensures Progress(src, src[..i], i, [])
  {
    hide Progress;
    if i == 0 {
      Start(src);
    } else {
      QuietPrefix(src, i - 1);
      assert !TriggerAt(src, i - 1);
      KeepOne(src, src[..i - 1], i - 1, []);
      assert src[..i - 1] + [src[i - 1]] == src[..i];
    }
  }

  /** The first loop: two bytes at a time, to the first place where anything has to be looked at. */
  method FirstStop(src: seq<byte>) returns (i: nat, length: nat)
    ensures i <= length <= |src| && Quiet(src, i)
    ensures length < |src| ==> i == length && TriggerAt(src, i) && src[i + 2] != 3
  {
    length := |src|;
    i := 0;
    while i + 1 < length
      invariant i <= length == |src|
      invariant forall j: nat :: j + 1 < i ==> !TriggerAt(src, j)
      decreases length - i
    {
      if src[i] == 0 {
        ghost var i0 := i;
        if i > 0 && src[i - 1] == 0 {
          i := i - 1;
        }
        if i + 2 < length && src[i + 1] == 0 && src[i + 2] <= 3 {
          if src[i + 2] != 3 && src[i + 2] != 0 {
            length := i;
          }
          return;
        }
        assert !TriggerAt(src, i);
      }
      i := i + 2;
    }
  }

  /** ff_h2645_extract_rbsp, into the buffer behind what is there, with padding zeros at the end. */
  method ExtractRbsp(src: seq<byte>, dst: array<byte>, at: nat, padding: nat)
    returns (read: nat, size: nat, skipped: seq<nat>)
    requires at + |src| + padding <= dst.Length
    modifies dst
    ensures size <= read <= |src| && Extracted(dst[at..at + size], read, skipped) == Naive(src, 0)
    ensures forall k :: at + size <= k < at + size + padding ==> dst[k] == 0
    ensures dst[..at] == old(dst[..at])
  {
    hide Naive, Progress, Quiet, TriggerAt, Behind;
    ghost var front := dst[..at];
    var i, length := FirstStop(src);
    QuietPrefix(src, i);
    forall k | 0 <= k < i { dst[at + k] := src[k]; }
    assert dst[at..at + i] == src[..i] && dst[..at] == front;
    var nsc;
    read, size, skipped, nsc := ExtractRest(src, length, dst, at, i);
    if !nsc {
      read, size := CopyTail(src, length, dst, at, read, size, skipped);
    }
    Finish(src, dst[at..at + size], read, skipped);
    ghost var out := dst[at..at + size];
    forall k | 0 <= k < padding { dst[at + size + k] := 0; }
    assert dst[at..at + size] == out && dst[..at] == front;
  }

  /** The second loop, until two bytes are left or a start code comes. */
  method ExtractRest(src: seq<byte>, length: nat, dst: array<byte>, at: nat, i: nat)
    returns (si: nat, di: nat, skipped: seq<nat>, nsc: bool)
    requires i <= length <= |src| && at + |src| <= dst.Length
    requires Progress(src, dst[at..at + i], i, [])
    requires length < |src| ==> i == length
    modifies dst
    ensures di <= si <= length && Progress(src, dst[at..at + di], si, skipped)
    ensures nsc ==> TriggerAt(src, si) && src[si + 2] != 3
    ensures !nsc ==> length <= si + 2 && (length < |src| ==> si == length)
    ensures dst[..at] == old(dst[..at])
  {
    hide Progress, Naive;
    si, di, skipped, nsc := i, i, [], false;
    while si + 2 < length
      invariant di <= si <= length && Progress(src, dst[at..at + di], si, skipped)
      invariant length < |src| ==> si == length
      invariant dst[..at] == old(dst[..at])
    {
      ghost var out := dst[at..at + di];
      if src[si + 2] > 3 {
        KeepOne(src, out, si, skipped);
        KeepOne(src, out + [src[si]], si + 1, skipped);
        WriteTwo(dst, at, di, src[si], src[si + 1]);
        si, di := si + 2, di + 2;
      } else if src[si] == 0 && src[si + 1] == 0 && src[si + 2] != 0 {
        if src[si + 2] == 3 {
          TakeOut(src, out, si, skipped);
          WriteTwo(dst, at, di, 0, 0);
          assert out + [0] + [0] == out + [0, 0];
          si, di := si + 3, di + 2;
          skipped := skipped + [di - 1];
        } else {
          nsc := true;
          return;
        }
      } else {
        KeepOne(src, out, si, skipped);
        Write(dst, at, di, src[si]);
        si, di := si + 1, di + 1;
      }
    }
  }

  /** One byte more in the buffer. */
  method Write(dst: array<byte>, at: nat, di: nat, b: byte)
    requires at + di < dst.Length
    modifies dst
    ensures dst[..at] == old(dst[..at]) && dst[at..at + di + 1] == old(dst[at..at + di]) + [b]
  {
    dst[at + di] := b;
  }

  method WriteTwo(dst: array<byte>, at: nat, di: nat, a: byte, b: byte)
    requires at + di + 1 < dst.Length
    modifies dst
    ensures dst[..at] == old(dst[..at]) && dst[at..at + di + 2] == old(dst[at..at + di]) + [a] + [b]
  {
    Write(dst, at, di, a);
    Write(dst, at, di + 1, b);
  }

  method CopyTail(src: seq<byte>, length: nat, dst: array<byte>, at: nat, si0: nat, di0: nat, ghost skipped: seq<nat>)
    returns (si: nat, di: nat)
    requires di0 <= si0 <= length <= |src| && length <= si0 + 2 && at + |src| <= dst.Length
    requires length < |src| ==> si0 == length
    requires Progress(src, dst[at..at + di0], si0, skipped)
    modifies dst
    ensures si == length && di <= si && Progress(src, dst[at..at + di], si, skipped)
    ensures dst[..at] == old(dst[..at])
  {
    hide Progress;
    si, di := si0, di0;
    while si < length
      invariant si0 <= si <= length && di <= si && Progress(src, dst[at..at + di], si, skipped)
      invariant length < |src| ==> si == length
      invariant dst[..at] == old(dst[..at])
    {
      ghost var out := dst[at..at + di];
      KeepOne(src, out, si, skipped);
      Write(dst, at, di, src[si]);
      si, di := si + 1, di + 1;
    }
  }
}
