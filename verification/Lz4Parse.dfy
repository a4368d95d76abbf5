/** The parse LZ4_compress_generic makes of a block: which matches it takes and which bytes it leaves as
    literals.  It is a function of the source, the hash table and the acceleration, and not of the
    budget: a budget only decides whether the block of the parse is written or nothing. */
module Lz4Parse {
  import opened Lz4Format
  import opened Lz4Sequences

  const SKIP_TRIGGER := 6
  const MIN_LENGTH := MFLIMIT + 1
  const LIMIT_64K := 0x1_0000 + (MFLIMIT - 1)

  /** A hash of the bytes at a position. */
  type Hash = seq<byte> -> nat

  /** The parameters of one call.  startIndex is the table index of position s0, byU16
      tells 16-bit table entries, dictSmall that old entries must be filtered out. */
  datatype Job = Job(src: seq<byte>, s0: nat, n: nat, low: nat, startIndex: nat,
                     byU16: bool, dictSmall: bool, hash: Hash)
  {
    predicate Valid() {
      && low <= s0 && s0 + n <= |src| && n <= MAX_INPUT_SIZE
      && s0 - low <= startIndex && startIndex + n < U32
      && (byU16 ==> low == s0 && n < LIMIT_64K && (startIndex > 0 ==> startIndex + n < 0xFFFF))
    }

    function Iend(): nat { s0 + n }

    function MflimitPlusOne(): int { s0 + n - MFLIMIT + 1 }

    function Matchlimit(): int { s0 + n - LASTLITERALS }

    function Index(p: int): int { p - s0 + startIndex }

    /** Indexes below this one are not those of an available position. */
    function PrefixIdxLimit(): int { startIndex - (s0 - low) }

    function HashAt(p: nat): nat
      requires p + 8 <= |src|
    {
      hash(src[p..p + 8])
    }

    /** A table entry, when the next index to be looked up is cur: it names an earlier
        available position, or one of the compressor's filters rejects it. */
    predicate EntryOk(t: nat, cur: int) {
      && t < cur
      && (t >= PrefixIdxLimit() || dictSmall || (!byU16 && t + DISTANCE_MAX < startIndex))
    }
  }

  /** src repeats at p, from m on, for len bytes. */
  predicate Same(src: seq<byte>, p: nat, m: nat, len: nat) {
    m <= p && p + len <= |src| && forall k :: p <= k < p + len ==> src[k] == src[k - (p - m)]
  }

  predicate Read32Equal(src: seq<byte>, p: nat, m: nat)
    requires m <= p && p + 4 <= |src|
  {
    src[p] == src[m] && src[p + 1] == src[m + 1] && src[p + 2] == src[m + 2] && src[p + 3] == src[m + 3]
  }

  /** A match the format can express, of at least len bytes. */
  predicate Found(j: Job, ip: nat, m: int, len: nat) {
    j.low <= m < ip && ip - m <= DISTANCE_MAX && ip < j.MflimitPlusOne() && Same(j.src, ip, m, len)
  }

  /** A table entry passes the compressor's filters, and the first four bytes agree. */
  predicate Usable(j: Job, ip: nat, matchIndex: nat) {
    var m := j.s0 + matchIndex - j.startIndex;
    && !(j.dictSmall && matchIndex < j.PrefixIdxLimit())
    && !(!j.byU16 && matchIndex + DISTANCE_MAX < j.Index(ip))
    && 0 <= m <= ip && ip + 4 <= |j.src| && Read32Equal(j.src, ip, m)
  }

  // --------------------------------------------------------------- the parse

  /** The hash function fits a table of this size. */
  ghost predicate Sized(j: Job, size: nat) {
    j.Valid() && forall s: seq<byte> :: j.hash(s) < size
  }

  /** The table after position p has been put in. */
  function Put(j: Job, table: seq<nat>, p: nat): (t: seq<nat>)
    requires j.Valid() && j.s0 <= p && p + 8 <= |j.src|
    ensures |t| == |table|
  {
    if j.HashAt(p) < |table| then table[j.HashAt(p) := j.Index(p)] else table
  }

  /** How a search ends: at the end of the block, or at position ip with a match at m and this table. */
  datatype SearchEnd = Miss | Hit(ip: nat, m: nat, table: seq<nat>)

  predicate Sound(j: Job, at: SearchEnd, anchor: nat, size: nat) {
    at.Hit? ==> anchor <= at.ip < j.MflimitPlusOne() && at.m <= at.ip && |at.table| == size
  }

  /** Tries position ip, then the ones further and further behind it. */
  ghost function Find(j: Job, table: seq<nat>, ip: nat, step: nat, nb: nat): (at: SearchEnd)
    requires Sized(j, |table|) && j.s0 <= ip <= j.MflimitPlusOne() && step >= 1 && nb >= 64
    ensures Sound(j, at, ip, |table|)
    decreases j.MflimitPlusOne() - ip
  {
    if ip + step > j.MflimitPlusOne() then Miss
    else
      var t := table[j.HashAt(ip)];
      if Usable(j, ip, t) then Hit(ip, j.s0 + t - j.startIndex, Put(j, table, ip))
      else Find(j, Put(j, table, ip), ip + step, nb / 64, nb + 1)
  }

  /** What follows a match that ends at ip: position ip itself is tried first. */
  ghost function Next(j: Job, table: seq<nat>, ip: nat, acceleration: nat): (at: SearchEnd)
    requires Sized(j, |table|) && j.s0 + 2 <= ip < j.MflimitPlusOne() && acceleration >= 1
    ensures Sound(j, at, ip, |table|)
  {
    var table' := Put(j, table, ip - 2);
    var t := table'[j.HashAt(ip)];
    if Usable(j, ip, t) then Hit(ip, j.s0 + t - j.startIndex, Put(j, table', ip))
    else Find(j, Put(j, table', ip), ip + 1, 1, acceleration * 64)
  }

  /** How many bytes before p and m agree, back to anchor and low. */
  function Before(src: seq<byte>, p: nat, m: nat, anchor: nat, low: nat): (n: nat)
    requires m <= p <= |src|
    ensures n <= m && (anchor <= p ==> anchor <= p - n)
  {
    if p > anchor && m > low && src[p - 1] == src[m - 1] then 1 + Before(src, p - 1, m - 1, anchor, low) else 0
  }

  /** How many bytes from p and m on agree, before limit. */
  function Agree(src: seq<byte>, p: nat, m: nat, limit: int): (n: nat)
    requires m <= p && limit <= |src|
    ensures p <= limit ==> p + n <= limit
    ensures p > limit ==> n == 0
    decreases limit - p
  {
    if p < limit && src[p] == src[m] then 1 + Agree(src, p + 1, m + 1, limit) else 0
  }

  /** The length of the match of ip and m: four bytes that are known to agree and all that follow. */
  function MatchLength(j: Job, ip: nat, m: nat): (n: nat)
    requires j.Valid() && m <= ip < j.MflimitPlusOne()
    ensures n >= MINMATCH && ip + n <= j.Matchlimit()
  {
    MINMATCH + Agree(j.src, ip + MINMATCH, m + MINMATCH, j.Matchlimit())
  }

  /** Sequences, and where the last literals start. */
  datatype Parsed = Parsed(ss: seq<Sequence>, anchor: nat)

  function Joined(ss: seq<Sequence>, rest: Parsed): Parsed {
    Parsed(ss + rest.ss, rest.anchor)
  }

  /** What is still to be written when all before anchor is and a search has ended so. */
  ghost function Rest(j: Job, at: SearchEnd, anchor: nat, acceleration: nat, size: nat): (r: Parsed)
    requires Sized(j, size) && j.s0 <= anchor <= j.Iend() && Sound(j, at, anchor, size) && acceleration >= 1
    ensures anchor <= r.anchor <= j.Iend() && (r.anchor == anchor || r.anchor <= j.Matchlimit())
    decreases j.Iend() - anchor
  {
    if at.Miss? then Parsed([], anchor)
    else
      var back := Before(j.src, at.ip, at.m, anchor, j.low);
      var ip, m := at.ip - back, at.m - back;
      var end := ip + MatchLength(j, ip, m);
      var s := Sequence(j.src[anchor..ip], ip - m, end - ip);
      Joined([s], if end >= j.MflimitPlusOne() then Parsed([], end)
                  else Rest(j, Next(j, at.table, end, acceleration), end, acceleration, size))
  }

  /** The whole parse. */
  ghost function Parse(j: Job, table: seq<nat>, acceleration: nat): (r: Parsed)
    requires Sized(j, |table|) && acceleration >= 1
    ensures j.s0 <= r.anchor <= j.Iend() && (r.anchor == j.s0 || r.anchor <= j.Matchlimit())
  {
    if j.n < MIN_LENGTH then Parsed([], j.s0)
    else Rest(j, Find(j, Put(j, table, j.s0), j.s0 + 1, 1, acceleration * 64), j.s0, acceleration, |table|)
  }

  /** How many bytes a sequence takes. */
  function SequenceSize(s: Sequence): nat {
    1 + (|s.lits| + 240) / 255 + |s.lits| + 2 + (s.matchLen + 236) / 255
  }

  function SequencesSize(ss: seq<Sequence>): nat {
    if ss == [] then 0 else SequencesSize(ss[..|ss| - 1]) + SequenceSize(ss[|ss| - 1])
  }

  function LastSize(n: nat): nat {
    1 + (n + 240) / 255 + n
  }

  /** How many bytes the block of a parse takes. */
  function Size(j: Job, p: Parsed): nat
    requires p.anchor <= j.Iend()
  {
    SequencesSize(p.ss) + LastSize(j.Iend() - p.anchor)
  }

  /** The block of a parse. */
  ghost predicate IsBlock(j: Job, p: Parsed, block: seq<byte>)
    requires j.Valid() && p.anchor <= j.Iend()
  {
    AllWritable(p.ss) && block == BlockBytes(p.ss) + LastBytes(j.src[p.anchor..j.Iend()])
  }

  // ------------------------------------------------------------------- sizes

  lemma {:induction false} SequencesSizes(a: seq<Sequence>, b: seq<Sequence>)
    ensures SequencesSize(a + b) == SequencesSize(a) + SequencesSize(b)
    decreases |b|
  {
    if b != [] {
      SequencesSizes(a, b[..|b| - 1]);
      assert (a + b)[..|a + b| - 1] == a + b[..|b| - 1];
    } else {
      assert a + b == a;
    }
  }

  lemma {:induction false} BlockBytesSized(ss: seq<Sequence>)
    requires AllWritable(ss)
    ensures |BlockBytes(ss)| == SequencesSize(ss)
    decreases |ss|
  {
    if ss != [] {
      BlockBytesSized(ss[..|ss| - 1]);
    }
  }

  /** The block of a parse has its size. */
  lemma BlockSized(j: Job, p: Parsed, block: seq<byte>)
    requires j.Valid() && j.s0 <= p.anchor <= j.Iend() && IsBlock(j, p, block)
    ensures |block| == Size(j, p)
  {
    BlockBytesSized(p.ss);
  }

  /** A parse that goes on with a sequence, and ends five bytes before the end or earlier, takes at
      least the bytes so far, those of the sequence and those of five last literals. */
  lemma PartSize(j: Job, ss: seq<Sequence>, s: Sequence, whole: Parsed, max: nat)
    requires j.Valid() && whole.anchor <= j.Matchlimit() && ss + [s] <= whole.ss
    requires SequencesSize(ss) + SequenceSize(s) + LastSize(LASTLITERALS) > max
    ensures Size(j, whole) > max
  {
    SequencesSizes(ss + [s], whole.ss[|ss| + 1..]);
    assert ss + [s] + whole.ss[|ss| + 1..] == whole.ss;
    assert (ss + [s])[..|ss|] == ss;
  }

  lemma ParseStart(j: Job, table: seq<nat>, acceleration: nat)
    requires Sized(j, |table|) && acceleration >= 1 && j.n >= MIN_LENGTH
    ensures Parse(j, table, acceleration)
         == Rest(j, Find(j, Put(j, table, j.s0), j.s0 + 1, 1, acceleration * 64), j.s0, acceleration, |table|)
  {
    hide Rest, Find, Put;
  }

  lemma ParseShort(j: Job, table: seq<nat>, acceleration: nat)
    requires Sized(j, |table|) && acceleration >= 1 && j.n < MIN_LENGTH
    ensures Parse(j, table, acceleration) == Parsed([], j.s0)
  {
  }

  lemma JoinedNothing(r: Parsed)
    ensures Joined([], r) == r
  {
  }

  lemma RestMiss(j: Job, anchor: nat, acceleration: nat, size: nat, ss: seq<Sequence>)
    requires Sized(j, size) && j.s0 <= anchor <= j.Iend() && acceleration >= 1
    ensures Joined(ss, Rest(j, Miss, anchor, acceleration, size)) == Parsed(ss, anchor)
  {
  }

  /** The next sequence of a parse, and what follows it. */
  lemma RestHit(j: Job, at: SearchEnd, anchor: nat, acceleration: nat, size: nat, ip: nat, m: nat, s: Sequence)
    requires Sized(j, size) && j.s0 <= anchor <= j.Iend() && Sound(j, at, anchor, size) && acceleration >= 1
    requires at.Hit? && ip == at.ip - Before(j.src, at.ip, at.m, anchor, j.low) && m == at.m - (at.ip - ip)
    requires s == Sequence(j.src[anchor..ip], ip - m, MatchLength(j, ip, m))
    ensures var r, end := Rest(j, at, anchor, acceleration, size), ip + s.matchLen;
            && anchor <= ip < j.MflimitPlusOne() && end <= j.Matchlimit() && r.anchor <= j.Matchlimit()
            && r == Joined([s], if end >= j.MflimitPlusOne() then Parsed([], end)
                                else Rest(j, Next(j, at.table, end, acceleration), end, acceleration, size))
  {
    hide Before, MatchLength, Find, Next;
  }

  /** One step of a search. */
  lemma FindStep(j: Job, table: seq<nat>, ip: nat, step: nat, nb: nat)
    requires Sized(j, |table|) && j.s0 <= ip && ip + step <= j.MflimitPlusOne() && step >= 1 && nb >= 64
    ensures var t := table[j.HashAt(ip)];
            Find(j, table, ip, step, nb)
            == if Usable(j, ip, t) then Hit(ip, j.s0 + t - j.startIndex, Put(j, table, ip))
               else Find(j, Put(j, table, ip), ip + step, nb / 64, nb + 1)
  {
  }

  /** The same after the sequences ss: the parse goes on with s. */
  lemma ParseStep(j: Job, ss: seq<Sequence>, at: SearchEnd, anchor: nat, acceleration: nat, size: nat,
                  ip: nat, m: nat, s: Sequence, whole: Parsed)
    requires Sized(j, size) && j.s0 <= anchor <= j.Iend() && Sound(j, at, anchor, size) && acceleration >= 1
    requires at.Hit? && ip == at.ip - Before(j.src, at.ip, at.m, anchor, j.low) && m == at.m - (at.ip - ip)
    requires s == Sequence(j.src[anchor..ip], ip - m, MatchLength(j, ip, m))
    requires whole == Joined(ss, Rest(j, at, anchor, acceleration, size))
    ensures whole.anchor <= j.Matchlimit() && ss + [s] <= whole.ss
    ensures var end := ip + s.matchLen;
            whole == if end >= j.MflimitPlusOne() then Parsed(ss + [s], end)
                     else Joined(ss + [s], Rest(j, Next(j, at.table, end, acceleration), end, acceleration, size))
  {
    hide Before, MatchLength, Find, Next, Rest;
    RestHit(j, at, anchor, acceleration, size, ip, m, s);
    var end := ip + s.matchLen;
    var more := if end >= j.MflimitPlusOne() then Parsed([], end)
                else Rest(j, Next(j, at.table, end, acceleration), end, acceleration, size);
    assert ss + ([s] + more.ss) == ss + [s] + more.ss;
  }

  lemma FindEnds(j: Job, table: seq<nat>, ip: nat, step: nat, nb: nat)
    requires Sized(j, |table|) && j.s0 <= ip <= j.MflimitPlusOne() < ip + step && step >= 1 && nb >= 64
    ensures Find(j, table, ip, step, nb) == Miss
  {
  }

  /** A usable candidate at the first position is taken. */
  lemma FindAtOnce(j: Job, table: seq<nat>, ip: nat, nb: nat)
    requires Sized(j, |table|) && j.s0 <= ip < j.MflimitPlusOne() && nb >= 64
    requires Usable(j, ip, table[j.HashAt(ip)])
    ensures Find(j, table, ip, 1, nb) == Hit(ip, j.s0 + table[j.HashAt(ip)] - j.startIndex, Put(j, table, ip))
  {
  }

  lemma LastSizes(a: nat, ml: nat, x: nat)
    requires ml >= MINMATCH
    ensures 3 + (a + 240) / 255 + a + (ml + 236) / 255 + LastSize(x) <= LastSize(a + ml + x)
  {
    assert (a + 240) / 255 + (x + 240) / 255 <= (a + x + 240) / 255 + 1;
    assert (a + x + 240) / 255 <= (a + ml + x + 240) / 255;
  }

  /** No sequences make a block longer than literals alone: each saves what a further length byte costs. */
  lemma {:induction false} NeverLonger(ss: seq<Sequence>, x: nat)
    requires AllWritable(ss)
    ensures SequencesSize(ss) + LastSize(x) <= LastSize(Span(ss) + x)
    decreases |ss|
  {
    if ss != [] {
      var s := ss[|ss| - 1];
      LastSizes(|s.lits|, s.matchLen, x);
      NeverLonger(ss[..|ss| - 1], |s.lits| + s.matchLen + x);
    }
  }

  // ---------------------------------------------------------- counts are exact

  lemma {:induction false} BeforeIs(src: seq<byte>, p: nat, m: nat, anchor: nat, low: nat, n: nat)
    requires n <= m <= p <= |src| && anchor <= p - n && low <= m - n
    requires forall k :: p - n <= k < p ==> src[k] == src[k - (p - m)]
    requires p - n == anchor || m - n == low || src[p - n - 1] != src[m - n - 1]
    ensures Before(src, p, m, anchor, low) == n
    decreases n
  {
    if n > 0 {
      assert src[p - 1] == src[m - 1];
      BeforeIs(src, p - 1, m - 1, anchor, low, n - 1);
    }
  }

  lemma {:induction false} AgreeIs(src: seq<byte>, p: nat, m: nat, limit: nat, n: nat)
    requires m <= p && p + n <= limit <= |src|
    requires forall k :: p <= k < p + n ==> src[k] == src[k - (p - m)]
    requires p + n < limit ==> src[p + n] != src[m + n]
    ensures Agree(src, p, m, limit) == n
    decreases n
  {
    if n > 0 {
      assert src[p] == src[m];
      AgreeIs(src, p + 1, m + 1, limit, n - 1);
    }
  }

  // -------------------------------------------------------- a run of one byte

  /** One byte again and again, often enough for a match. */
  predicate IsRun(s: seq<byte>) {
    |s| >= MIN_LENGTH && forall k :: 0 <= k < |s| ==> s[k] == s[0]
  }

  /** How many bytes a run of n equal bytes is compressed to. */
  function RunSize(n: nat): (r: nat)
    ensures r <= n / 255 + 20
    ensures n >= MIN_LENGTH ==> r < n
  {
    10 + (n + 230) / 255
  }

  predicate Uniform(j: Job)
    requires j.Valid()
  {
    j.n >= MIN_LENGTH && forall k :: j.s0 <= k < j.Iend() ==> j.src[k] == j.src[j.s0]
  }

  lemma RunUniform(j: Job)
    requires j.Valid() && IsRun(j.src[j.s0..j.Iend()])
    ensures Uniform(j)
  {
    forall k | j.s0 <= k < j.Iend() ensures j.src[k] == j.src[j.s0] {
      assert j.src[k] == j.src[j.s0..j.Iend()][k - j.s0];
    }
  }

  /** A run of equal bytes without history is one literal, one match and five last literals, whatever the hash
      function, the table and the acceleration. */
  lemma UniformParse(j: Job, table: seq<nat>, acceleration: nat)
    requires Sized(j, |table|) && acceleration >= 1 && j.low == j.s0 && Uniform(j)
    ensures Parse(j, table, acceleration) == Parsed([Sequence([j.src[j.s0]], 1, j.n - 6)], j.Matchlimit())
    ensures Size(j, Parse(j, table, acceleration)) == RunSize(j.n)
  {
    hide Usable, Before, Agree;
    var ip := j.s0 + 1;
    var p := Parse(j, table, acceleration);
    var at := Find(j, Put(j, table, j.s0), ip, 1, acceleration * 64);
    UniformFound(j, table, acceleration);
    BeforeIs(j.src, ip, j.s0, j.s0, j.low, 0);
    AgreeIs(j.src, ip + MINMATCH, j.s0 + MINMATCH, j.Matchlimit(), j.n - 10);
    assert p == Rest(j, at, j.s0, acceleration, |table|);
    var s := Sequence(j.src[j.s0..ip], 1, j.n - 6);
    assert p == Parsed([s], j.Matchlimit());
    assert s.lits == [j.src[j.s0]];
    assert [s][..0] == [] && SequencesSize([]) == 0;
    assert SequencesSize([s]) == SequenceSize(s);
  }

  lemma UniformFound(j: Job, table: seq<nat>, acceleration: nat)
    requires Sized(j, |table|) && acceleration >= 1 && j.low == j.s0 && Uniform(j)
    ensures var t := Put(j, table, j.s0);
            Find(j, t, j.s0 + 1, 1, acceleration * 64) == Hit(j.s0 + 1, j.s0, Put(j, t, j.s0 + 1))
  {
    assert j.src[j.s0..j.s0 + 8] == j.src[j.s0 + 1..j.s0 + 9];
  }
}
