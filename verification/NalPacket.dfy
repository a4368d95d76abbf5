/** A packet of H.264 NAL units, split at start codes or by length fields. */
module NalPacket {
  import opened Lz4Format
  import opened Rbsp

  /** A unit: its payload, and its length in bits without the stop bit and what follows it. */
  datatype Unit = Unit(data: seq<byte>, bits: nat)

  datatype Packet = Units(units: seq<Unit>) | Invalid

  // ------------------------------------------------------------- one unit

  /** ff_ctz. */
  function Ctz(v: nat): (r: nat)
    requires v > 0
  {
    if v % 2 == 1 then 0 else 1 + Ctz(v / 2)
  }

  /** Without the zeros at the end. */
  function Stripped(s: seq<byte>): (r: seq<byte>)
    ensures |r| <= |s| && r == s[..|r|]
    ensures r != [] ==> r[|r| - 1] != 0
    ensures forall k :: |r| <= k < |s| ==> s[k] == 0
  {
    if s == [] || s[|s| - 1] != 0 then s else Stripped(s[..|s| - 1])
  }

  /** What get_bit_length works on. */
  function Kept(s: seq<byte>, skipZeros: bool): seq<byte> {
    if skipZeros then Stripped(s) else s
  }

  /** The bits before the stop bit. */
  function Bits(s: seq<byte>): (n: int)
    ensures n <= 8 * |s|
  {
    if s == [] then 0
    else if s[|s| - 1] == 0 then 8 * |s|
    else 8 * |s| - (Ctz(s[|s| - 1]) + 1)
  }

  /** Bit k, the highest of each byte first. */
  function BitAt(s: seq<byte>, k: nat): nat
    requires k < 8 * |s|
  {
    s[k / 8] / Power2(7 - k % 8) % 2
  }

  lemma {:induction false} CtzIs(v: nat, j: nat)
    requires v > 0
    ensures v / Power2(Ctz(v)) % 2 == 1 && (j < Ctz(v) ==> v / Power2(j) % 2 == 0)
    ensures v >= Power2(Ctz(v))
  {
    if v % 2 == 0 {
      CtzIs(v / 2, if j == 0 then 0 else j - 1);
      HalfFirst(v, Ctz(v / 2));
      if j > 0 { HalfFirst(v, j - 1); }
    }
  }

  lemma HalfFirst(v: nat, j: nat)
    ensures v / Power2(j + 1) == v / 2 / Power2(j)
  {
    var p := Power2(j);
    var q, r := v / 2 / p, v / 2 % p;
    assert v / 2 == q * p + r;
    assert v == (2 * p) * q + (2 * r + v % 2) by { assert v == 2 * (q * p + r) + v % 2; }
    QuotientIs(v, 2 * p, q, 2 * r + v % 2);
  }

  lemma {:induction false} Power2Grows(i: nat, j: nat)
    requires i <= j
    ensures Power2(i) <= Power2(j)
  {
    if i < j { Power2Grows(i, j - 1); }
  }

  lemma CtzSmall(v: byte)
    requires v > 0
    ensures Ctz(v) <= 7 && (v < 128 ==> Ctz(v) <= 6)
  {
    CtzIs(v, 0);
    assert Power2(8) == 256 && Power2(7) == 128;
    if Ctz(v) >= 8 { Power2Grows(8, Ctz(v)); }
    if Ctz(v) >= 7 { Power2Grows(7, Ctz(v)); }
  }

  /** get_bit_length finds the stop bit: a one, with nothing but zeros behind it. */
  lemma StopBit(s: seq<byte>, k: nat)
    requires Stripped(s) != []
    ensures var n := Bits(Stripped(s));
            && 0 <= n < 8 * |s| && BitAt(s, n) == 1
            && (n < k < 8 * |s| ==> BitAt(s, k) == 0)
  {
    hide BitAt, Bits, Ctz, Stripped, Power2;
    var last := |Stripped(s)| - 1;
    var v := s[last];
    assert Stripped(s)[last] == v && v > 0;
    CtzSmall(v);
    var n := 8 * last + (7 - Ctz(v));
    BitsOf(Stripped(s));
    BitIs(s, n, last, 7 - Ctz(v));
    CtzIs(v, 0);
    if n < k < 8 * |s| { LaterBit(s, last, k); }
  }

  lemma LaterBit(s: seq<byte>, last: nat, k: nat)
    requires last < |s| && s[last] > 0 && forall i :: last < i < |s| ==> s[i] == 0
    requires 8 * last + 7 < k + Ctz(s[last]) && k < 8 * |s|
    ensures BitAt(s, k) == 0
  {
    hide BitAt, Ctz, Power2;
    CtzSmall(s[last]);
    var q, r := k / 8, k % 8;
    assert k == 8 * q + r;
    ZeroBehind(s, last, q, r);
    BitIs(s, k, q, r);
  }

  lemma BitsOf(t: seq<byte>)
    requires t != [] && t[|t| - 1] != 0
    ensures Bits(t) == 8 * (|t| - 1) + (7 - Ctz(t[|t| - 1]))
  {
    hide Ctz;
  }

  lemma BitIs(s: seq<byte>, k: nat, q: nat, r: nat)
    requires k == 8 * q + r && r < 8 && q < |s|
    ensures k < 8 * |s| && BitAt(s, k) == s[q] / Power2(7 - r) % 2
  {
    SplitBits(k, q, r);
  }

  lemma ZeroBehind(s: seq<byte>, last: nat, q: nat, r: nat)
    requires last < |s| && s[last] > 0 && last <= q < |s| && r < 8
    requires forall i :: last < i < |s| ==> s[i] == 0
    requires q == last ==> 7 - r < Ctz(s[last])
    ensures s[q] / Power2(7 - r) % 2 == 0
  {
    hide Power2, Ctz;
    if q == last {
      CtzIs(s[last], 7 - r);
    } else {
      QuotientIs(0, Power2(7 - r), 0, 0);
    }
  }

  lemma SplitBits(k: nat, q: nat, r: nat)
    requires k == 8 * q + r && r < 8
    ensures k / 8 == q && k % 8 == r
  {
  }

  /** Whether the unit is kept: not empty, the forbidden bit clear, and something before the stop bit. */
  predicate Good(data: seq<byte>, skipZeros: bool) {
    data != [] && data[0] < 128 && Bits(Kept(data, skipZeros)) > 0
  }

  /** A unit with the forbidden bit clear and a stop bit anywhere is kept. */
  lemma ProperGood(data: seq<byte>, skipZeros: bool)
    requires Proper(data)
    ensures Good(data, skipZeros)
  {
    var t := Kept(data, skipZeros);
    var k: nat :| k < |data| && data[k] != 0;
    assert t != [];
    if t[|t| - 1] != 0 {
      CtzSmall(t[|t| - 1]);
    }
  }

  predicate Proper(data: seq<byte>) {
    data != [] && data[0] < 128 && |data| <= INT_MAX / 8 && exists k: nat :: k < |data| && data[k] != 0
  }

  // ------------------------------------------------------------- the scanners

  predicate StartCode(s: seq<byte>, i: nat) {
    i + 2 < |s| && s[i] == 0 && s[i + 1] == 0 && s[i + 2] == 1
  }

  /** find_next_start_code: the number of bytes up to behind the first start code with a byte behind it, or all. */
  method FindNextStartCode(s: seq<byte>) returns (r: nat)
    ensures r == AfterStart(s, 0)
  {
    var i := 0;
    if 3 >= |s| {
      return |s|;
    }
    while i + 3 < |s|
      invariant i + 3 <= |s| && AfterStart(s, 0) == AfterStart(s, i)
    {
      if s[i] == 0 && s[i + 1] == 0 && s[i + 2] == 1 {
        break;
      }
      i := i + 1;
    }
    r := i + 3;
  }

  function AfterStart(s: seq<byte>, i: nat): (r: nat)
    requires i <= |s|
    ensures i <= r <= |s| && (i < |s| ==> i < r)
    ensures r < |s| ==> r >= i + 3 && StartCode(s, r - 3)
    ensures forall j: nat :: i <= j && j + 3 < r ==> !StartCode(s, j)
    decreases |s| - i
  {
    if i + 3 >= |s| then |s|
    else if StartCode(s, i) then i + 3
    else AfterStart(s, i + 1)
  }

  /** n bytes, the highest first. */
  function BigEndian(v: nat, n: nat): (r: seq<byte>)
    ensures |r| == n
  {
    if n == 0 then [] else BigEndian(v / 256, n - 1) + [v % 256]
  }

  function Number(s: seq<byte>): nat {
    if s == [] then 0 else Number(s[..|s| - 1]) * 256 + s[|s| - 1]
  }

  lemma EightMore(n: nat)
    ensures Power2(n + 8) == 256 * Power2(n) && Power2(0) == 1
  {
    FourMore(n);
    FourMore(n + 4);
    assert Power2(0) == 1;
  }

  lemma FourMore(n: nat)
    ensures Power2(n + 4) == 16 * Power2(n)
  {
    assert Power2(n + 1) == 2 * Power2(n) && Power2(n + 2) == 2 * Power2(n + 1);
    assert Power2(n + 3) == 2 * Power2(n + 2) && Power2(n + 4) == 2 * Power2(n + 3);
  }

  lemma {:induction false} NumberBack(v: nat, n: nat)
    requires v < Power2(8 * n)
    ensures Number(BigEndian(v, n)) == v
  {
    if n == 0 {
      assert Power2(0) == 1;
    } else {
      EightMore(8 * (n - 1));
      assert BigEndian(v, n)[..n - 1] == BigEndian(v / 256, n - 1);
      NumberBack(v / 256, n - 1);
    }
  }

  /** get_nalsize: the length field, if there is one, it is positive, and that much is there. */
  function NalSize(s: seq<byte>, lenSize: nat): int
    requires 1 <= lenSize <= 4
  {
    if |s| <= lenSize then -1
    else
      var v := Number(s[..lenSize]);
      if v == 0 || v > |s| - lenSize then -1 else v
  }

  method GetNalSize(s: seq<byte>, lenSize: nat) returns (size: int)
    requires 1 <= lenSize <= 4 && |s| <= INT_MAX
    ensures size == NalSize(s, lenSize)
  {
    if 0 >= |s| - lenSize { return -1; }
    var n: nat, i := 0, 0;
    while i < lenSize
      invariant i <= lenSize && n == Number(s[..i]) < Power2(8 * i)
    {
      assert s[..i + 1][..i] == s[..i];
      EightMore(8 * i);
      n := n * 256 + s[i];
      i := i + 1;
    }
    Power2Grows(8 * lenSize, 32);
    EightMore(0); EightMore(8); EightMore(16); EightMore(24);
    size := Signed32(n);
    if size <= 0 || size > |s| - lenSize { return -1; }
  }

  function Signed32(n: nat): int { if n > INT_MAX then n - U32 else n }

  // ------------------------------------------------------------- the packet

  lemma NaiveWithin(s: seq<byte>, n: nat)
    ensures Naive(s, n).read <= |s|
  {
  }

  /** Whether the zeros at the end of a unit are to be left alone. */
  predicate KeepsZeros(rest: seq<byte>) {
    |rest| >= 4 && rest[0] == 0 && rest[1] == 0 && rest[2] == 1 && rest[3] == 0xE0
  }

  /** A unit too long, without the zeros that are left out, for its bits to be counted. */
  predicate TooLong(data: seq<byte>, rest: seq<byte>) {
    |Kept(data, !KeepsZeros(rest))| > INT_MAX / 8
  }

  function Collected(got: seq<Unit>, data: seq<byte>, rest: seq<byte>): seq<Unit> {
    var skip := !KeepsZeros(rest);
    if Good(data, skip) then got + [Unit(data, Bits(Kept(data, skip)))] else got
  }

  /** The units in s, when the next length field is gap bytes away. */
  function Split(s: seq<byte>, gap: nat, got: seq<Unit>, lenSize: nat): Packet
    requires gap <= |s| && 1 <= lenSize <= 4
    decreases |s|, 1
  {
    if |s| < 4 then Units(got)
    else if gap == 0 then
      var size := NalSize(s, lenSize);
      if size < 0 then Invalid else SplitUnit(s[lenSize..], size, got, lenSize)
    else
      var k := AfterStart(s[..gap], 0);
      if k == |s| then (if got == [] then Invalid else Units(got))
      else if k == gap then Split(s[k..], 0, got, lenSize)
      else SplitUnit(s[k..], gap - k, got, lenSize)
  }

  /** A unit of at most take bytes, and what follows. */
  function SplitUnit(s: seq<byte>, take: nat, got: seq<Unit>, lenSize: nat): Packet
    requires take <= |s| && 1 <= lenSize <= 4
    decreases |s|, 2
  {
    var x := Naive(s[..take], 0);
    NaiveWithin(s[..take], 0);
    if TooLong(x.data, s[x.read..]) then Invalid
    else Split(s[x.read..], take - x.read, Collected(got, x.data, s[x.read..]), lenSize)
  }

  /** Where a unit's payload lies in the buffer. */
  datatype Nal = Nal(at: nat, size: nat, bits: nat)

  predicate Holds(b: seq<byte>, nals: seq<Nal>, units: seq<Unit>) {
    && |nals| == |units|
    && forall j :: 0 <= j < |nals| ==>
         && nals[j].at + nals[j].size <= |b|
         && Unit(b[nals[j].at..nals[j].at + nals[j].size], nals[j].bits) == units[j]
  }

  lemma HoldsOn(b: seq<byte>, b': seq<byte>, nals: seq<Nal>, units: seq<Unit>)
    requires Holds(b, nals, units) && |b| <= |b'| && b'[..|b|] == b
    ensures Holds(b', nals, units)
  {
    forall j | 0 <= j < |nals|
      ensures b'[nals[j].at..nals[j].at + nals[j].size] == b[nals[j].at..nals[j].at + nals[j].size]
    {
    }
  }

  lemma HoldsNext(b: seq<byte>, nals: seq<Nal>, units: seq<Unit>, nal: Nal, unit: Unit)
    requires Holds(b, nals, units) && nal.at + nal.size <= |b|
    requires Unit(b[nal.at..nal.at + nal.size], nal.bits) == unit
    ensures Holds(b, nals + [nal], units + [unit])
  {
  }

  /** get_bit_length, which answers a negative number for a unit that is too long. */
  method GetBitLength(data: seq<byte>, skipZeros: bool) returns (bits: int)
    ensures bits == if |Kept(data, skipZeros)| > INT_MAX / 8 then -1 else Bits(Kept(data, skipZeros))
  {
    var size := |data|;
    assert data[..size] == data;
    while skipZeros && size > 0 && data[size - 1] == 0
      invariant size <= |data| && Stripped(data[..size]) == Stripped(data) && (!skipZeros ==> size == |data|)
    {
      assert data[..size][..size - 1] == data[..size - 1];
      size := size - 1;
    }
    assert data[..size] == Kept(data, skipZeros);
    if size == 0 { return 0; }
    var v := data[size - 1];
    if size > INT_MAX / 8 { return -1; }
    bits := size * 8;
    if v != 0 { bits := bits - (Ctz(v) + 1); }
  }

  /** ff_h2645_packet_split. */
  method SplitPacket(s: seq<byte>, isNalff: bool, lenSize: nat, dst: array<byte>, padding: nat)
    returns (ok: bool, nals: seq<Nal>, ghost units: seq<Unit>)
    requires 1 <= lenSize <= 4 && |s| <= INT_MAX && |s| + padding <= dst.Length
    modifies dst
    ensures Split(s, if isNalff then 0 else |s|, [], lenSize) == if ok then Units(units) else Invalid
    ensures ok ==> Holds(dst[..], nals, units)
  {
    hide Split, SplitUnit, Naive, Good, Holds, NalSize, AfterStart;
    var p, nextAvc, used := 0, if isNalff then 0 else |s|, 0;
    ghost var goal := Split(s, nextAvc, [], lenSize);
    ok, nals, units := true, [], [];
    assert s[0..] == s;
    NoneHeld();
    while |s| - p >= 4
      invariant used <= p <= nextAvc <= |s|
      invariant Holds(dst[..used], nals, units) && goal == Split(s[p..], nextAvc - p, units, lenSize)
      decreases |s| - p
    {
      ghost var t := s[p..];
      SplitOpen(t, nextAvc - p, units, lenSize);
      if p == nextAvc {
        var size := GetNalSize(s[p..], lenSize);
        if size < 0 { return false, nals, units; }
        SizeFits(t, lenSize);
        p := p + lenSize;
        nextAvc := p + size;
      } else {
        var k := FindNextStartCode(s[p..nextAvc]);
        assert t[..nextAvc - p] == s[p..nextAvc];
        p := p + k;
        if p == |s| {
          ok := nals != [];
          SameCount(dst[..used], nals, units);
          HoldsOn(dst[..used], dst[..], nals, units);
          return;
        }
        if p >= nextAvc {
          assert t[k..] == s[p..];
          continue;
        }
      }
      assert s[p..] == t[|t| - (|s| - p)..];
      ok, nals, units, used, p := TakeUnit(s, p, nextAvc, dst, padding, nals, units, used, lenSize);
      if !ok { return; }
    }
    SplitOpen(s[p..], nextAvc - p, units, lenSize);
    HoldsOn(dst[..used], dst[..], nals, units);
  }

  /** One turn of the loop, from the extraction of the payload on. */
  method TakeUnit(s: seq<byte>, p: nat, nextAvc: nat, dst: array<byte>, padding: nat,
                  nals0: seq<Nal>, ghost units0: seq<Unit>, used0: nat, ghost lenSize: nat)
    returns (ok: bool, nals: seq<Nal>, ghost units: seq<Unit>, used: nat, p': nat)
    requires 1 <= lenSize <= 4 && used0 <= p <= nextAvc <= |s| && |s| + padding <= dst.Length
    requires Holds(dst[..used0], nals0, units0)
    modifies dst
    ensures p <= p' <= nextAvc && used0 <= used <= p'
    ensures SplitUnit(s[p..], nextAvc - p, units0, lenSize)
         == if ok then Split(s[p'..], nextAvc - p', units, lenSize) else Invalid
    ensures ok ==> Holds(dst[..used], nals, units)
  {
    hide Split, Naive, Good, Holds, KeepsZeros, Bits, Kept, TooLong;
    assert s[p..][..nextAvc - p] == s[p..nextAvc];
    ghost var b := dst[..used0];
    var read, size, skipped := ExtractRbsp(s[p..nextAvc], dst, used0, padding);
    p', used := p + read, used0 + read;
    nals, units := nals0, units0;
    var data := dst[used0..used0 + size];
    assert s[p..][read..] == s[p'..];
    HoldsOn(b, dst[..used], nals, units);
    var skip := !Peek(s, p');
    var bits := GetBitLength(data, skip);
    ok := bits >= 0;
    LengthSign(data, skip, s[p'..]);
    if !ok { return; }
    units := Collected(units0, data, s[p'..]);
    GoodIs(data, skip);
    if size > 0 && bits > 0 && data[0] < 128 {
      nals := nals + [Nal(used0, size, bits)];
      assert dst[..used][used0..used0 + size] == data;
      HoldsNext(dst[..used], nals0, units0, Nal(used0, size, bits), Unit(data, bits));
    }
  }

  lemma LengthSign(data: seq<byte>, skip: bool, rest: seq<byte>)
    requires skip == !KeepsZeros(rest)
    ensures TooLong(data, rest) <==> |Kept(data, skip)| > INT_MAX / 8
    ensures Bits(Kept(data, skip)) >= 0
  {
    var t := Kept(data, skip);
    if t != [] && t[|t| - 1] != 0 { CtzSmall(t[|t| - 1]); }
  }

  predicate Peek(s: seq<byte>, p: nat)
    requires p <= |s|
    ensures Peek(s, p) == KeepsZeros(s[p..])
  {
    |s| - p >= 4 && s[p] == 0 && s[p + 1] == 0 && s[p + 2] == 1 && s[p + 3] == 0xE0
  }

  lemma GoodIs(data: seq<byte>, skip: bool)
    ensures Good(data, skip) <==> data != [] && Bits(Kept(data, skip)) > 0 && data[0] < 128
  {
  }

  lemma NoneHeld()
    ensures Holds([], [], [])
  {
  }

  lemma SameCount(b: seq<byte>, nals: seq<Nal>, units: seq<Unit>)
    requires Holds(b, nals, units)
    ensures nals == [] <==> units == []
  {
  }

  lemma SizeFits(s: seq<byte>, lenSize: nat)
    requires 1 <= lenSize <= 4
    ensures NalSize(s, lenSize) >= 0 ==> lenSize + NalSize(s, lenSize) <= |s|
  {
  }

  /** One level of the definition. */
  lemma SplitOpen(s: seq<byte>, gap: nat, got: seq<Unit>, lenSize: nat)
    requires gap <= |s| && 1 <= lenSize <= 4
    ensures |s| < 4 ==> Split(s, gap, got, lenSize) == Units(got)
    ensures var size := NalSize(s, lenSize);
            |s| >= 4 && gap == 0 ==>
              (Split(s, gap, got, lenSize)
               == if size < 0 then Invalid else SplitUnit(s[lenSize..], size, got, lenSize))
    ensures var k := AfterStart(s[..gap], 0);
            |s| >= 4 && gap > 0 ==>
              (Split(s, gap, got, lenSize)
               == if k == |s| then (if got == [] then Invalid else Units(got))
                  else if k == gap then Split(s[k..], 0, got, lenSize)
                  else SplitUnit(s[k..], gap - k, got, lenSize))
  {
  }

  // ------------------------------------------------------- the two containers

  function Datas(units: seq<Unit>): (r: seq<seq<byte>>)
    ensures |r| == |units|
  {
    if units == [] then [] else Datas(units[..|units| - 1]) + [units[|units| - 1].data]
  }

  /** The byte stream format: a start code before every unit. */
  function AnnexB(us: seq<seq<byte>>): seq<byte> {
    if us == [] then [] else [0, 0, 1] + Escape(us[0], 0) + AnnexB(us[1..])
  }

  /** The other format: the length before every unit. */
  function Avcc(us: seq<seq<byte>>, lenSize: nat): seq<byte> {
    if us == [] then []
    else BigEndian(|Escape(us[0], 0)|, lenSize) + Escape(us[0], 0) + Avcc(us[1..], lenSize)
  }

  /** Two units in either format. */
  lemma PacketBytes(a: byte, b: byte, c: byte)
    requires a > 0 && b > 0 && c > 0
    ensures AnnexB([[a, b], [c]]) == [0, 0, 1, a, b, 0, 0, 1, c]
    ensures Avcc([[a, b], [c]], 2) == [0, 2, a, b, 0, 1, c]
  {
    hide Escape, BigEndian;
    PlainUnits(a, b, c);
    var us: seq<seq<byte>> := [[a, b], [c]];
    assert us[1..] == [[c]] && us[1..][1..] == [];
    assert AnnexB(us[1..]) == [0, 0, 1] + [c] + AnnexB([]) == [0, 0, 1, c];
    assert Avcc(us[1..], 2) == [0, 1] + [c] + Avcc([], 2) == [0, 1, c];
  }

  lemma PlainUnits(a: byte, b: byte, c: byte)
    requires a > 0 && b > 0 && c > 0
    ensures Escape([a, b], 0) == [a, b] && Escape([c], 0) == [c]
    ensures BigEndian(2, 2) == [0, 2] && BigEndian(1, 2) == [0, 1]
  {
    assert [a, b][1..] == [b] && [b][1..] == [] && [c][1..] == [];
    assert Escape([], 0) == [] && BigEndian(0, 1) == [0] && BigEndian(0, 0) == [];
    assert Escape([b], 0) == [b];
  }

  predicate AllProper(us: seq<seq<byte>>) {
    forall u :: u in us ==> Proper(u)
  }

  predicate AllFit(us: seq<seq<byte>>, lenSize: nat) {
    forall u :: u in us ==> |Escape(u, 0)| < Power2(8 * lenSize)
  }

  /** A unit written here, and what comes behind it. */
  lemma UnitTaken(u: seq<byte>, e: seq<byte>, take: nat, rest: seq<byte>, got: seq<Unit>, lenSize: nat)
    returns (unit: Unit)
    requires 1 <= lenSize <= 4 && Proper(u) && e == Escape(u, 0) && |e| <= take <= |e| + |rest|
    requires Boundary(rest[..take - |e|])
    ensures unit.data == u
    ensures SplitUnit(e + rest, take, got, lenSize) == Split(rest, take - |e|, got + [unit], lenSize)
  {
    hide Naive, Escape, Split, Good, Boundary, Bits, Kept, KeepsZeros, Zeros;
    var s, follow := e + rest, rest[..take - |e|];
    assert s[..take] == Zeros(0) + e + follow by { NoZeros(); }
    Unescape(u, 0, follow, 0);
    assert Zeros(0) + u == u by { NoZeros(); }
    assert s[|e|..] == rest;
    var skip := !KeepsZeros(rest);
    ProperGood(u, skip);
    GoodIs(u, skip);
    assert |Kept(u, skip)| <= |u| by { KeptShort(u, skip); }
    unit := Unit(u, Bits(Kept(u, skip)));
  }

  lemma KeptShort(u: seq<byte>, skip: bool)
    ensures |Kept(u, skip)| <= |u|
  {
  }

  /** Units written with start codes come back, all and in order. */
  lemma {:induction false} AnnexBBack(us: seq<seq<byte>>, got: seq<Unit>, lenSize: nat)
    requires AllProper(us) && 1 <= lenSize <= 4
    ensures var r := Split(AnnexB(us), |AnnexB(us)|, got, lenSize);
            r.Units? && Datas(r.units) == Datas(got) + us
    decreases |us|
  {
    hide Split, SplitUnit, Escape, Proper, AfterStart;
    var s := AnnexB(us);
    SplitOpen(s, |s|, got, lenSize);
    if us != [] {
      var e, rest := Escape(us[0], 0), AnnexB(us[1..]);
      assert us[0] in us && Proper(us[0]);
      NotEmpty(us[0]);
      FirstCode(e, rest);
      assert s[..|s|] == s && s == [0, 0, 1] + e + rest && s[3..] == e + rest && rest[..|rest|] == rest;
      var unit := UnitTaken(us[0], e, |s| - 3, rest, got, lenSize);
      AnnexBBack(us[1..], got + [unit], lenSize);
      assert (got + [unit])[..|got|] == got && us == [us[0]] + us[1..];
    }
  }

  lemma NotEmpty(u: seq<byte>)
    requires Proper(u)
    ensures Escape(u, 0) != []
  {
  }

  lemma FirstCode(e: seq<byte>, rest: seq<byte>)
    requires e != []
    ensures AfterStart([0, 0, 1] + e + rest, 0) == 3
  {
  }

  /**
   * Units written with lengths come back exactly when the last one and its length take four bytes:
   * the loop does not look at less. Short of that, units are lost.
   */
  lemma {:induction false} AvccBack(us: seq<seq<byte>>, got: seq<Unit>, lenSize: nat)
    requires AllProper(us) && AllFit(us, lenSize) && 1 <= lenSize <= 4
    ensures var r := Split(Avcc(us, lenSize), 0, got, lenSize);
            r.Units? && (Datas(r.units) == Datas(got) + us <==> us == [] || lenSize + |Escape(us[|us| - 1], 0)| >= 4)
    decreases |us|
  {
    hide Split, SplitUnit, Escape, Proper, NalSize, BigEndian, Number;
    var s := Avcc(us, lenSize);
    SplitOpen(s, 0, got, lenSize);
    if us != [] {
      LastFits(us, lenSize);
      if |s| >= 4 {
        var e, rest := Escape(us[0], 0), Avcc(us[1..], lenSize);
        assert us[0] in us && Proper(us[0]);
        NotEmpty(us[0]);
        SizeRead(e, rest, lenSize);
        assert s == BigEndian(|e|, lenSize) + e + rest && s[lenSize..] == e + rest && rest[..0] == [];
        var unit := UnitTaken(us[0], e, |e|, rest, got, lenSize);
        AvccBack(us[1..], got + [unit], lenSize);
        assert (got + [unit])[..|got|] == got && us == [us[0]] + us[1..];
        assert Datas(got + [unit]) + us[1..] == Datas(got) + us;
      }
    }
  }

  lemma SizeRead(e: seq<byte>, rest: seq<byte>, lenSize: nat)
    requires 1 <= lenSize <= 4 && 0 < |e| < Power2(8 * lenSize)
    ensures NalSize(BigEndian(|e|, lenSize) + e + rest, lenSize) == |e|
  {
    hide Number, BigEndian;
    var b := BigEndian(|e|, lenSize);
    assert (b + e + rest)[..lenSize] == b;
    NumberBack(|e|, lenSize);
  }

  lemma {:induction false} LastFits(us: seq<seq<byte>>, lenSize: nat)
    requires us != []
    ensures |Avcc(us, lenSize)| >= lenSize + |Escape(us[|us| - 1], 0)|
  {
    hide Escape, BigEndian;
    if |us| > 1 { LastFits(us[1..], lenSize); }
  }

  /** A unit that is lost: one byte, with its length in one byte. */
  lemma ShortUnitLost()
    ensures AllProper([[9]]) && AllFit([[9]], 1) && Split(Avcc([[9]], 1), 0, [], 1) == Units([])
  {
    assert [9][0] != 0 && Proper([9]);
    assert Escape([9], 0) == [9] && Power2(8) == 256;
    assert |Avcc([[9]], 1)| == 2;
  }
}
