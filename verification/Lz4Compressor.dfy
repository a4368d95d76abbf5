/** LZ4_compress_generic over one memory segment: greedy matches found through a hash
    table, for any hash function.  Positions in src replace pointers; the content being
    compressed is src[s0..s0 + n] and matches may reach back to src[low..]. */
module Lz4Compressor {
  import opened Lz4Format
  import opened Lz4Copies
  import opened Lz4Sequences
  import opened Lz4Emit
  import opened Lz4Parse

  ghost predicate TableOk(table: array<nat>, j: Job, cur: int)
    reads table
  {
    && (forall s: seq<byte> :: j.hash(s) < table.Length)
    && (forall k :: 0 <= k < table.Length ==> j.EntryOk(table[k], cur))
  }

  /** Indexes that may be looked up at p may be looked up later. */
  lemma TableLater(table: array<nat>, j: Job, p: int, q: int)
    requires p <= q && TableOk(table, j, p - j.s0 + j.startIndex)
    ensures TableOk(table, j, q - j.s0 + j.startIndex)
  {
  }

  lemma TableSized(table: array<nat>, j: Job, cur: int)
    requires j.Valid() && TableOk(table, j, cur)
    ensures Sized(j, table.Length)
  {
  }

  /** Stores an index; a 16-bit table keeps its low 16 bits. */
  method PutIndexOnHash(table: array<nat>, j: Job, idx: nat, h: nat)
    requires h < table.Length && j.Valid() && j.startIndex <= idx <= j.startIndex + j.n - MFLIMIT
    requires TableOk(table, j, idx + 1)
    modifies table
    ensures table[h] == idx && table[..] == old(table[..])[h := idx] && TableOk(table, j, idx + 1)
  {
    table[h] := if j.byU16 then idx % 0x1_0000 else idx % U32;
  }

  /** The candidate a table entry names, after the compressor's filters. */
  method Candidate(j: Job, ip: nat, matchIndex: nat) returns (ok: bool, m: int)
    requires j.Valid() && j.s0 < ip < j.MflimitPlusOne() && j.EntryOk(matchIndex, j.Index(ip))
    ensures ok <==> Usable(j, ip, matchIndex)
    ensures ok ==> Found(j, ip, m, MINMATCH)
    ensures m == j.s0 + matchIndex - j.startIndex
  {
    m := j.s0 + matchIndex - j.startIndex;
    if j.dictSmall && matchIndex < j.PrefixIdxLimit() { return false, m; }
    if !j.byU16 && matchIndex + DISTANCE_MAX < j.Index(ip) { return false, m; }
    ok := Read32Equal(j.src, ip, m);
  }

  /** The search loop: steps forward, faster and faster, until a candidate matches. */
  method FindMatch(j: Job, table: array<nat>, ip0: nat, forwardH0: nat, acceleration: nat)
    returns (found: bool, ip: nat, m: int)
    requires j.Valid() && j.s0 < ip0 <= j.MflimitPlusOne() && acceleration >= 1
    requires TableOk(table, j, j.Index(ip0)) && forwardH0 == j.HashAt(ip0)
    modifies table
    ensures found ==> ip0 <= ip && Found(j, ip, m, MINMATCH)
    ensures Find(j, old(table[..]), ip0, 1, acceleration * 64) == if found then Hit(ip, m, table[..]) else Miss
    ensures TableOk(table, j, j.Index(if found then ip + 1 else j.MflimitPlusOne()))
  {
    hide TableOk, Found, Usable, Find;
    TableSized(table, j, j.Index(ip0));
    var forwardIp, forwardH, step, searchMatchNb := ip0, forwardH0, 1, acceleration * 64;
    m, found := 0, false;
    while true
      invariant ip0 <= forwardIp <= j.MflimitPlusOne() && step >= 1 && searchMatchNb >= 64
      invariant forwardH == j.HashAt(forwardIp) && TableOk(table, j, j.Index(forwardIp))
      invariant Find(j, old(table[..]), ip0, 1, acceleration * 64) == Find(j, table[..], forwardIp, step, searchMatchNb)
      decreases j.MflimitPlusOne() - forwardIp
    {
      var h, current := forwardH, j.Index(forwardIp);
      var matchIndex := table[h];
      ip := forwardIp;
      ghost var before, step0, nb0 := table[..], step, searchMatchNb;
      forwardIp := forwardIp + step;
      step, searchMatchNb := searchMatchNb / 64, searchMatchNb + 1;
      if forwardIp > j.MflimitPlusOne() {
        FindEnds(j, before, ip, step0, nb0);
        TableLater(table, j, ip, j.MflimitPlusOne());
        return;
      }
      FindStep(j, before, ip, step0, nb0);
      forwardH := j.HashAt(forwardIp);
      EntryRead(table, j, h, current);
      PutIndexOnHash(table, j, current, h);
      assert table[..] == Put(j, before, ip);
      found, m := Candidate(j, ip, matchIndex);
      if found { FoundFits(j, ip, m, MINMATCH); return; }
      TableLater(table, j, ip + 1, forwardIp);
    }
  }

  lemma EntryRead(table: array<nat>, j: Job, h: nat, cur: nat)
    requires TableOk(table, j, cur) && h < table.Length
    ensures j.EntryOk(table[h], cur) && TableOk(table, j, cur + 1)
  {
  }

  lemma FoundFits(j: Job, ip: nat, m: int, len: nat)
    requires Found(j, ip, m, len)
    ensures 0 <= m < ip < j.MflimitPlusOne()
  {
  }

  /** Widens a match backwards over literals not yet written. */
  method CatchUp(j: Job, ip0: nat, m0: nat, anchor: nat) returns (ip: nat, m: nat)
    requires j.Valid() && j.s0 <= anchor <= ip0 && Found(j, ip0, m0, MINMATCH)
    ensures anchor <= ip <= ip0 && Found(j, ip, m, ip0 - ip + MINMATCH) && ip - m == ip0 - m0
    ensures ip0 - ip == Before(j.src, ip0, m0, anchor, j.low)
  {
    ip, m := ip0, m0;
    while ip > anchor && m > j.low && j.src[ip - 1] == j.src[m - 1]
      invariant anchor <= ip <= ip0 && Found(j, ip, m, ip0 - ip + MINMATCH) && ip - m == ip0 - m0
      decreases ip
    {
      ip, m := ip - 1, m - 1;
    }
    BeforeIs(j.src, ip0, m0, anchor, j.low, ip0 - ip);
  }

  /** LZ4_count: how many bytes agree before limit, 8, 4, 2 and 1 at a time. */
  method Count(src: seq<byte>, p0: nat, m0: nat, limit: nat) returns (len: nat)
    requires m0 < p0 <= limit <= |src|
    ensures p0 + len <= limit && Same(src, p0, m0, len)
    ensures p0 + len < limit ==> src[p0 + len] != src[m0 + len]
  {
    len := 0;
    while p0 + len + 7 < limit
      invariant p0 + len <= limit && Same(src, p0, m0, len)
    {
      var common := CommonBytes(src, p0 + len, m0 + len);
      len := len + common;
      if common < 8 { return; }
    }
    var rest := CountTail(src, p0 + len, m0 + len, limit);
    len := len + rest;
  }

  method CountTail(src: seq<byte>, p: nat, m: nat, limit: nat) returns (len: nat)
    requires m < p <= limit <= |src| && limit <= p + 7
    ensures p + len <= limit && Same(src, p, m, len)
    ensures p + len < limit ==> src[p + len] != src[m + len]
  {
    len := 0;
    if p + 3 < limit && Read32Equal(src, p, m) { len := 4; }
    if p + len + 1 < limit && src[p + len] == src[m + len] && src[p + len + 1] == src[m + len + 1] {
      len := len + 2;
    }
    if p + len < limit && src[p + len] == src[m + len] { len := len + 1; }
  }

  /** LZ4_NbCommonBytes on the difference of two 8-byte reads. */
  method CommonBytes(src: seq<byte>, p: nat, m: nat) returns (c: nat)
    requires m < p && p + 8 <= |src|
    ensures c <= 8 && Same(src, p, m, c) && (c < 8 ==> src[p + c] != src[m + c])
  {
    c := 0;
    while c < 8 && src[p + c] == src[m + c]
      invariant c <= 8 && Same(src, p, m, c)
    {
      c := c + 1;
    }
  }

  // ----------------------------------------------------------------- encoding

  /** What has been written: dest[..op] are the bytes of the sequences ss, which replay
      the content up to anchor. */
  ghost predicate Written(j: Job, dest: seq<byte>, anchor: nat, ss: seq<Sequence>)
    requires j.Valid()
  {
    && j.s0 <= anchor <= j.Iend()
    && AllWritable(ss)
    && dest == BlockBytes(ss)
    && Replay(j.src[j.low..j.s0], ss) == Some(j.src[j.low..anchor])
    && Span(ss) == anchor - j.s0 && Legal(ss, j.n)
  }

  /** Sequences that replay the content up to the last literals, within the restrictions of the format. */
  ghost predicate IsParse(j: Job, p: Parsed)
    requires j.Valid()
  {
    j.s0 <= p.anchor <= j.Iend() && AllWritable(p.ss) && Written(j, BlockBytes(p.ss), p.anchor, p.ss)
  }

  /** The block of a parse is no longer than the content as literals. */
  lemma ParseSize(j: Job, p: Parsed)
    requires j.Valid() && IsParse(j, p)
    ensures Size(j, p) <= LastSize(j.n)
  {
    NeverLonger(p.ss, j.Iend() - p.anchor);
  }

  /** Appending a match that repeats the source gives the source itself. */
  lemma CopyOfSource(src: seq<byte>, low: nat, ip: nat, m: nat, len: nat)
    requires low <= m < ip && Same(src, ip, m, len)
    ensures CopyMatch(src[low..ip], ip - m, len) == src[low..ip + len]
  {
    var out, r := src[low..ip], src[low..ip + len];
    forall k | |out| <= k < |r| ensures r[k] == r[k - (ip - m)] {
      assert r[k] == src[low + k] == src[low + k - (ip - m)];
    }
    assert r[..|out|] == out;
    CopyMatchUnique(out, ip - m, len, r);
  }

  lemma WrittenStart(j: Job, d: seq<byte>)
    requires j.Valid() && d == []
    ensures Written(j, d, j.s0, [])
  {
  }

  lemma WrittenSize(j: Job, d: seq<byte>, anchor: nat, ss: seq<Sequence>)
    requires j.Valid() && Written(j, d, anchor, ss)
    ensures 255 * |d| <= 256 * (anchor - j.s0) && |d| == SequencesSize(ss)
  {
    BlockBytesSize(ss);
    BlockBytesSized(ss);
  }

  lemma ReplaySource(j: Job, anchor: nat, ss: seq<Sequence>, ip: nat, m: nat, end: nat, s: Sequence)
    requires j.Valid() && j.s0 <= anchor <= ip <= end <= j.Iend()
    requires Replay(j.src[j.low..j.s0], ss) == Some(j.src[j.low..anchor])
    requires Found(j, ip, m, end - ip) && s == Sequence(j.src[anchor..ip], ip - m, end - ip)
    ensures Replay(j.src[j.low..j.s0], ss + [s]) == Some(j.src[j.low..end])
  {
    hide Replay, CopyMatch, Same;
    ReplaySnoc(j.src[j.low..j.s0], ss, s);
    assert j.src[j.low..anchor] + s.lits == j.src[j.low..ip];
    CopyOfSource(j.src, j.low, ip, m, end - ip);
  }

  /** A sequence whose match repeats the source carries the replay on. */
  lemma WrittenSnoc(j: Job, dest: seq<byte>, anchor: nat, ss: seq<Sequence>, ip: nat, m: nat, end: nat,
                    s: Sequence, dest': seq<byte>)
    requires j.Valid() && Written(j, dest, anchor, ss) && anchor <= ip
    requires ip + MINMATCH <= end <= j.Matchlimit() && Found(j, ip, m, end - ip)
    requires s == Sequence(j.src[anchor..ip], ip - m, end - ip)
    requires Writable(s) ==> dest' == dest + SeqBytes(s)
    ensures Written(j, dest', end, ss + [s])
  {
    BlockBytesSnoc(ss, s);
    LegalSnoc(ss, s, j.n);
    ReplaySource(j, anchor, ss, ip, m, end, s);
  }

  lemma ParseMore(j: Job, d: seq<byte>, anchor: nat, ss: seq<Sequence>, ip: nat, m: nat, end: nat, s: Sequence)
    requires j.Valid() && Written(j, d, anchor, ss) && anchor <= ip
    requires ip + MINMATCH <= end <= j.Matchlimit() && Found(j, ip, m, end - ip)
    requires s == Sequence(j.src[anchor..ip], ip - m, end - ip) && Writable(s)
    ensures IsParse(j, Parsed(ss + [s], end))
  {
    hide SeqBytes, Replay, Legal;
    WrittenSnoc(j, d, anchor, ss, ip, m, end, s, d + SeqBytes(s));
    BlockBytesSnoc(ss, s);
  }

  // ------------------------------------------------------- the parse replays the source

  /** Every entry may be looked up at index cur. */
  predicate Entries(j: Job, table: seq<nat>, cur: int) {
    forall k :: 0 <= k < |table| ==> j.EntryOk(table[k], cur)
  }

  lemma EntriesPut(j: Job, table: seq<nat>, p: nat, cur: int)
    requires j.Valid() && j.s0 <= p && p + 8 <= |j.src| && Entries(j, table, cur) && cur <= j.Index(p) + 1
    ensures Entries(j, Put(j, table, p), j.Index(p) + 1)
  {
  }

  lemma EntriesPutBack(j: Job, table: seq<nat>, p: nat, cur: int)
    requires j.Valid() && j.s0 <= p && p + 8 <= |j.src| && Entries(j, table, cur) && j.Index(p) < cur
    ensures Entries(j, Put(j, table, p), cur)
  {
  }

  /** A search ends with a match that the format can express. */
  ghost predicate EndOk(j: Job, at: SearchEnd) {
    at.Hit? ==> && j.s0 < at.ip && Found(j, at.ip, at.m, MINMATCH)
                && Entries(j, at.table, j.Index(at.ip) + 1)
  }

  lemma {:induction false} FindOk(j: Job, table: seq<nat>, ip: nat, step: nat, nb: nat)
    requires Sized(j, |table|) && j.s0 < ip <= j.MflimitPlusOne() && step >= 1 && nb >= 64
    requires Entries(j, table, j.Index(ip))
    ensures EndOk(j, Find(j, table, ip, step, nb))
    decreases j.MflimitPlusOne() - ip
  {
    hide Put;
    if ip + step <= j.MflimitPlusOne() {
      FindStep(j, table, ip, step, nb);
      EntriesPut(j, table, ip, j.Index(ip));
      if !Usable(j, ip, table[j.HashAt(ip)]) {
        FindOk(j, Put(j, table, ip), ip + step, nb / 64, nb + 1);
      }
    }
  }

  lemma NextOk(j: Job, table: seq<nat>, ip: nat, acceleration: nat)
    requires Sized(j, |table|) && j.s0 + 2 <= ip < j.MflimitPlusOne() && acceleration >= 1
    requires Entries(j, table, j.Index(ip))
    ensures EndOk(j, Next(j, table, ip, acceleration))
  {
    hide Find;
    EntriesPutBack(j, table, ip - 2, j.Index(ip));
    var t := Put(j, table, ip - 2);
    EntriesPut(j, t, ip, j.Index(ip));
    if !Usable(j, ip, t[j.HashAt(ip)]) {
      FindOk(j, Put(j, t, ip), ip + 1, 1, acceleration * 64);
    }
  }

  lemma {:induction false} BeforeSame(src: seq<byte>, p: nat, m: nat, anchor: nat, low: nat)
    requires low <= m < p <= |src|
    ensures var n := Before(src, p, m, anchor, low);
            low <= m - n && forall k :: p - n <= k < p ==> src[k] == src[k - (p - m)]
  {
    if p > anchor && m > low && src[p - 1] == src[m - 1] { BeforeSame(src, p - 1, m - 1, anchor, low); }
  }

  lemma {:induction false} AgreeSame(src: seq<byte>, p: nat, m: nat, limit: nat)
    requires m < p && limit <= |src|
    ensures forall k :: p <= k < p + Agree(src, p, m, limit) ==> src[k] == src[k - (p - m)]
    decreases limit - p
  {
    if p < limit && src[p] == src[m] { AgreeSame(src, p + 1, m + 1, limit); }
  }

  lemma {:induction false} AgreeAtLeast(src: seq<byte>, p: nat, m: nat, limit: nat, len: nat)
    requires m < p && p + len <= limit <= |src| && forall k :: p <= k < p + len ==> src[k] == src[k - (p - m)]
    ensures Agree(src, p, m, limit) >= len
    decreases len
  {
    if len > 0 {
      assert src[p] == src[m];
      AgreeAtLeast(src, p + 1, m + 1, limit, len - 1);
    }
  }

  /** The match a search ended with, widened both ways. */
  lemma FoundWider(j: Job, at: SearchEnd, anchor: nat, ip: nat, m: nat)
    requires j.Valid() && EndOk(j, at) && at.Hit? && j.s0 <= anchor <= at.ip
    requires ip == at.ip - Before(j.src, at.ip, at.m, anchor, j.low) && m == at.m - (at.ip - ip)
    ensures Found(j, ip, m, MatchLength(j, ip, m)) && ip + MatchLength(j, ip, m) >= at.ip + MINMATCH
  {
    hide Before, Agree;
    BeforeSame(j.src, at.ip, at.m, anchor, j.low);
    var n := Agree(j.src, ip + MINMATCH, m + MINMATCH, j.Matchlimit());
    AgreeSame(j.src, ip + MINMATCH, m + MINMATCH, j.Matchlimit());
    AgreeAtLeast(j.src, ip + MINMATCH, m + MINMATCH, j.Matchlimit(), at.ip - ip);
    forall k | ip <= k < ip + MINMATCH + n ensures j.src[k] == j.src[k - (ip - m)] {
    }
  }

  lemma {:induction false} RestOk(j: Job, ss: seq<Sequence>, at: SearchEnd, anchor: nat, acceleration: nat, size: nat)
    requires Sized(j, size) && j.s0 <= anchor <= j.Iend() && Sound(j, at, anchor, size) && acceleration >= 1
    requires IsParse(j, Parsed(ss, anchor)) && EndOk(j, at)
    ensures IsParse(j, Joined(ss, Rest(j, at, anchor, acceleration, size)))
    decreases j.Iend() - anchor
  {
    hide IsParse, Before, MatchLength, Find, Next, Rest, Found, Entries;
    if at.Miss? {
      RestMiss(j, anchor, acceleration, size, ss);
      return;
    }
    EndFits(j, at);
    var back := Before(j.src, at.ip, at.m, anchor, j.low);
    var ip, m := at.ip - back, at.m - back;
    var s := Sequence(j.src[anchor..ip], ip - m, MatchLength(j, ip, m));
    var whole, end := Joined(ss, Rest(j, at, anchor, acceleration, size)), ip + s.matchLen;
    ParseStep(j, ss, at, anchor, acceleration, size, ip, m, s, whole);
    FoundWider(j, at, anchor, ip, m);
    RestHit(j, at, anchor, acceleration, size, ip, m, s);
    ParseFurther(j, ss, anchor, ip, m, end, s);
    if end < j.MflimitPlusOne() {
      EntriesLater(j, at.table, j.Index(at.ip) + 1, j.Index(end));
      NextOk(j, at.table, end, acceleration);
      RestOk(j, ss + [s], Next(j, at.table, end, acceleration), end, acceleration, size);
    }
  }

  lemma EndFits(j: Job, at: SearchEnd)
    requires EndOk(j, at) && at.Hit?
    ensures j.s0 < at.ip && at.m < at.ip && Found(j, at.ip, at.m, MINMATCH) && Entries(j, at.table, j.Index(at.ip) + 1)
  {
  }

  lemma EntriesLater(j: Job, table: seq<nat>, cur: int, later: int)
    requires Entries(j, table, cur) && cur <= later
    ensures Entries(j, table, later)
  {
  }

  lemma ParseFurther(j: Job, ss: seq<Sequence>, anchor: nat, ip: nat, m: nat, end: nat, s: Sequence)
    requires j.Valid() && IsParse(j, Parsed(ss, anchor)) && anchor <= ip
    requires ip + MINMATCH <= end <= j.Matchlimit() && Found(j, ip, m, end - ip)
    requires s == Sequence(j.src[anchor..ip], ip - m, end - ip)
    ensures IsParse(j, Parsed(ss + [s], end))
  {
    hide Written, Same;
    assert Writable(s);
    ParseMore(j, BlockBytes(ss), anchor, ss, ip, m, end, s);
  }

  /** Whatever the table holds, the parse replays the source, and its block is no longer than literals. */
  lemma ParseOk(j: Job, table: seq<nat>, acceleration: nat)
    requires Sized(j, |table|) && acceleration >= 1 && Entries(j, table, j.startIndex + 1)
    ensures IsParse(j, Parse(j, table, acceleration)) && Size(j, Parse(j, table, acceleration)) <= LastSize(j.n)
  {
    hide IsParse, Find, Rest, Parse;
    ParseNothing(j);
    if j.n < MIN_LENGTH {
      ParseShort(j, table, acceleration);
    } else {
      var t := Put(j, table, j.s0);
      EntriesPut(j, table, j.s0, j.startIndex + 1);
      FindOk(j, t, j.s0 + 1, 1, acceleration * 64);
      ParseStart(j, table, acceleration);
      var at := Find(j, t, j.s0 + 1, 1, acceleration * 64);
      RestOk(j, [], at, j.s0, acceleration, |table|);
      JoinedNothing(Rest(j, at, j.s0, acceleration, |table|));
    }
    ParseSize(j, Parse(j, table, acceleration));
  }

  lemma ParseNothing(j: Job)
    requires j.Valid()
    ensures IsParse(j, Parsed([], j.s0))
  {
    WrittenStart(j, []);
  }

  datatype Limit = NotLimited | Limited(max: nat)

  /** The least match code for which the check of limited mode is not enough. */
  const SHORT_CODE := 134655

  /** The least content with a match that long: without history, a match has a literal in front
      of it, and behind it there are five. */
  function ShortSize(history: bool): nat {
    SHORT_CODE + MINMATCH + LASTLITERALS + (if history then 0 else 1)
  }

  /** How far past its budget limited mode may write before it notices: the check before
      the length bytes of a match counts one byte for 256, and one is written for 255.
      With a budget that no content of this size exceeds, or one byte short of the content
      as the frame layer gives it, that cannot happen. */
  function Slack(n: nat, max: nat, history: bool): nat {
    if n < ShortSize(history) || CompressBound(n) <= max || (n <= max + 1 && n <= 0x40_0000) then 0
    else n / 65280 - 1
  }

  /** The check of limited mode before the length bytes of a match. */
  predicate PassesCheck(op: nat, mc: nat, max: nat) {
    op + (1 + LASTLITERALS) + mc / 256 <= max
  }

  /** How far the length bytes reach: they are written four at a time. */
  function MatchReach(mc: nat): nat {
    if mc < 15 then 0 else 4 * ((mc - 15) / (4 * 255)) + 4
  }

  /** The match codes for which the check is enough, wherever it is made. */
  lemma CheckEnough(mc: nat)
    ensures (forall op: nat, max: nat :: PassesCheck(op, mc, max) ==> op + MatchReach(mc) <= max)
            <==> MatchReach(mc) <= 1 + LASTLITERALS + mc / 256
  {
    if MatchReach(mc) > 1 + LASTLITERALS + mc / 256 {
      assert PassesCheck(0, mc, 1 + LASTLITERALS + mc / 256);
    }
  }

  /** They are all those below 134655, and none from 394755 on. */
  lemma CheckRange(mc: nat)
    ensures mc < SHORT_CODE ==> MatchReach(mc) <= 1 + LASTLITERALS + mc / 256
    ensures mc >= 394755 ==> MatchReach(mc) > 1 + LASTLITERALS + mc / 256
  {
  }

  predicate Capacity(j: Job, limit: Limit, length: nat) {
    match limit
    case NotLimited => CompressBound(j.n) <= length
    case Limited(max) => max + Slack(j.n, max, j.low < j.s0) <= length
  }

  /** The least room in which what fits the budget can be written. */
  predicate Room(j: Job, limit: Limit, length: nat) {
    match limit
    case NotLimited => CompressBound(j.n) <= length
    case Limited(max) => max <= length
  }

  lemma LimitedMatchFits(op: nat, mc: nat, n: nat, max: nat, history: bool)
    requires PassesCheck(op, mc, max) && mc + ShortSize(history) <= n + SHORT_CODE && max < CompressBound(n)
    requires n > max + 1 || n > 0x40_0000 || mc < SHORT_CODE
    ensures op + (mc + 240) / 255 + 3 <= max + Slack(n, max, history)
    ensures mc >= 15 ==> op + (mc - 15) / 255 + 4 <= max + Slack(n, max, history)
  {
    var q := mc / 65280;
    assert mc / 256 >= 255 * q + (mc - 65280 * q) / 256;
    assert (mc + 240) / 255 <= 256 * q + (mc - 65280 * q + 240) / 255;
  }

  /** With a budget of one byte less than the content, there is room for a long match: it saved more. */
  lemma LongMatchFits(token: nat, a: nat, ll: nat, mc: nat, n: nat, max: nat)
    requires 255 * token <= 256 * a && a + ll + mc + 9 <= n <= max + 1 && n <= 0x40_0000 && mc >= SHORT_CODE
    ensures var op := token + 1 + (ll + 240) / 255 + ll + 2;
            op + (mc + 240) / 255 + 3 <= max && op + (mc - 15) / 255 + 4 <= max
  {
    assert token <= a + a / 255;
    assert (ll + 240) / 255 <= ll / 255 + 1 && (mc + 240) / 255 <= mc / 255 + 1;
    assert a / 255 + ll / 255 + mc / 255 <= n / 255 <= 16449;
  }

  /** What a sequence writes before it is complete stays within the bound of its content. */
  lemma NotLimitedFits(op: nat, a: nat, ll: nat, mc: nat, n: nat)
    requires 255 * op <= 256 * a && a + ll + MFLIMIT <= n
    ensures op + 1 + (ll + 240) / 255 + ll + 8 <= CompressBound(n)
    ensures op + 1 + ll + 8 + ll / 255 <= CompressBound(n)
    ensures a + ll + mc + 9 <= n ==> op + 1 + (ll + 240) / 255 + ll + 2 + 6 + mc / 256 <= CompressBound(n)
    ensures mc >= 15 && a + ll + mc + 9 <= n ==>
              op + 1 + (ll + 240) / 255 + ll + 2 + (mc - 15) / 255 + 4 <= CompressBound(n)
  {
  }

  lemma MatchFits(token: nat, op: nat, a: nat, ll: nat, mc: nat, n: nat, max: nat, history: bool)
    requires PassesCheck(op, mc, max) && op == token + 1 + (ll + 240) / 255 + ll + 2
    requires 255 * token <= 256 * a && a + ll + mc + 9 <= n && a + ll + MFLIMIT <= n && (history || a + ll > 0)
    ensures op + (mc + 240) / 255 + 3 <= max + Slack(n, max, history)
    ensures mc >= 15 ==> op + (mc - 15) / 255 + 4 <= max + Slack(n, max, history)
  {
    if max >= CompressBound(n) {
      NotLimitedFits(token, a, ll, mc, n);
    } else if n <= max + 1 && n <= 0x40_0000 && mc >= SHORT_CODE {
      LongMatchFits(token, a, ll, mc, n, max);
    } else {
      LimitedMatchFits(op, mc, n, max, history);
    }
  }

  /** A budget that no content of this size can exceed. */
  predicate Ample(j: Job, limit: Limit) {
    limit.Limited? ==> limit.max >= CompressBound(j.n)
  }

  /** What is written never outgrows what is read, and in limited mode leaves room for the
      next token and offset. */
  ghost predicate RoomForNext(j: Job, limit: Limit, length: nat, op: nat, anchor: nat)
  {
    && 255 * op <= 256 * (anchor - j.s0)
    && (limit.Limited? ==> op + 3 <= length)
  }

  /** Literals and offset of a sequence: token is written with its match bits 0. */
  method EncodeStart(j: Job, dest: array<byte>, op0: nat, anchor: nat, ip: nat, m: nat, limit: Limit,
                     immediate: bool)
    returns (ok: bool, op: nat)
    requires j.Valid() && Capacity(j, limit, dest.Length) && j.s0 <= anchor <= ip
    requires Found(j, ip, m, MINMATCH) && (immediate ==> ip == anchor)
    requires 255 * op0 <= 256 * (anchor - j.s0)
    requires immediate ==> RoomForNext(j, limit, dest.Length, op0, anchor)
    modifies dest
    ensures forall k :: 0 <= k < op0 && k < dest.Length ==> dest[k] == old(dest[k])
    ensures Ample(j, limit) ==> ok
    ensures !ok ==> limit.Limited? && op0 + 9 + (ip - anchor) + (ip - anchor) / 255 > limit.max
    ensures ok ==> && op == op0 + 1 + |ExtOf(ip - anchor)| + (ip - anchor) + 2 <= dest.Length
                   && dest[op0..op - 2] == LitBytes(16 * Nibble(ip - anchor), j.src[anchor..ip])
                   && dest[op - 2..op] == LE16Bytes(ip - m)
  {
    hide Same, LitBytes, LE16Bytes;
    var litLength := ip - anchor;
    op := op0 + 1;
    if immediate {
      NoLiteralBytes(j.src[anchor..ip]);
      NotLimitedFits(op0, anchor - j.s0, 0, 0, j.n);
      dest[op0] := 0;
      assert dest[op0..op] == LitBytes(0, j.src[anchor..ip]);
    } else {
      NotLimitedFits(op0, anchor - j.s0, litLength, 0, j.n);
      if limit.Limited? && op + litLength + (2 + 1 + LASTLITERALS) + litLength / 255 > limit.max {
        return false, op;
      }
      op := EmitLiterals(dest, op0, j.src, anchor, litLength);
    }
    ghost var mid := op;
    ghost var d := dest[..];
    op := EmitOffset(dest, op, ip - m);
    SameSlice(d, dest[..], op0, mid);
    ok := true;
  }

  lemma SameSlice(a: seq<byte>, b: seq<byte>, i: nat, k: nat)
    requires i <= k <= |a| == |b| && forall x :: i <= x < k ==> a[x] == b[x]
    ensures a[i..k] == b[i..k]
  {
  }

  lemma NoLiteralBytes(lits: seq<byte>)
    requires lits == []
    ensures LitBytes(0, lits) == [0] && ExtOf(0) == []
  {
  }

  /** The match length, as far as the match goes. */
  method EncodeEnd(j: Job, dest: array<byte>, token: nat, op0: nat, anchor: nat, ip0: nat, m: nat,
                   atLeast: nat, limit: Limit)
    returns (ok: bool, op: nat, ip: nat)
    requires j.Valid() && Capacity(j, limit, dest.Length) && j.s0 <= anchor <= ip0
    requires Found(j, ip0, m, atLeast) && MINMATCH <= atLeast && ip0 + atLeast <= j.Matchlimit()
    requires op0 == token + 1 + |ExtOf(ip0 - anchor)| + (ip0 - anchor) + 2 <= dest.Length
    requires dest[token] % 16 == 0
    requires 255 * token <= 256 * (anchor - j.s0)
    modifies dest
    ensures Ample(j, limit) ==> ok
    ensures ip == ip0 + MatchLength(j, ip0, m)
    ensures !ok ==> limit.Limited? && op0 + 6 + (MatchLength(j, ip0, m) - MINMATCH) / 256 > limit.max
    ensures ok ==> && ip0 + atLeast <= ip <= j.Matchlimit() && Found(j, ip0, m, ip - ip0)
                   && op0 <= op <= dest.Length && dest[op0..op] == ExtOf(ip - ip0 - MINMATCH)
                   && dest[token] == old(dest[token]) + Nibble(ip - ip0 - MINMATCH)
                   && (limit.Limited? ==> op + 3 <= dest.Length)
    ensures forall k :: 0 <= k < op0 && k != token ==> dest[k] == old(dest[k])
  {
    hide LitBytes, Ext, ExtOf;
    var matchCode := Count(j.src, ip0 + MINMATCH, m + MINMATCH, j.Matchlimit());
    ip, op, ok := ip0 + matchCode + MINMATCH, op0, true;
    AgreeIs(j.src, ip0 + MINMATCH, m + MINMATCH, j.Matchlimit(), matchCode);
    NotLimitedFits(token, anchor - j.s0, ip0 - anchor, matchCode, j.n);
    if limit.Limited? {
      if op + (1 + LASTLITERALS) + matchCode / 256 > limit.max { return false, op, ip; }
      MatchFits(token, op, anchor - j.s0, ip0 - anchor, matchCode, j.n, limit.max, j.low < j.s0);
    }
    op := EmitMatchLength(dest, token, op, matchCode);
  }

  /** One sequence: literals, offset and match length of the match at ip0, as long as it
      goes.  Answers false only when the budget is spent. */
  method EncodeSequence(j: Job, dest: array<byte>, op0: nat, anchor: nat, ip0: nat, m: nat, atLeast: nat,
                        limit: Limit, immediate: bool)
    returns (ok: bool, op: nat, ip: nat, ghost s: Sequence)
    requires j.Valid() && Capacity(j, limit, dest.Length) && j.s0 <= anchor <= ip0
    requires Found(j, ip0, m, atLeast) && MINMATCH <= atLeast && ip0 + atLeast <= j.Matchlimit()
    requires op0 <= dest.Length && 255 * op0 <= 256 * (anchor - j.s0)
    requires immediate ==> ip0 == anchor && RoomForNext(j, limit, dest.Length, op0, anchor)
    modifies dest
    ensures Ample(j, limit) ==> ok
    ensures forall k :: 0 <= k < op0 ==> dest[k] == old(dest[k])
    ensures s == Sequence(j.src[anchor..ip0], ip0 - m, MatchLength(j, ip0, m))
    ensures !ok ==> limit.Limited? && op0 + SequenceSize(s) + LastSize(LASTLITERALS) > limit.max
    ensures ok ==> && ip0 + atLeast <= ip <= j.Matchlimit() && Found(j, ip0, m, ip - ip0)
                   && ip - ip0 == s.matchLen && Writable(s)
                   && op0 <= op <= dest.Length && dest[op0..op] == SeqBytes(s)
                   && (limit.Limited? ==> op + 3 <= dest.Length)
  {
    hide LitBytes, LE16Bytes, SeqBytes, Ext, Agree;
    ip, s := ip0, Sequence(j.src[anchor..ip0], ip0 - m, MatchLength(j, ip0, m));
    ok, op := EncodeStart(j, dest, op0, anchor, ip0, m, limit, immediate);
    if !ok { return; }
    ghost var mid, d0 := op, dest[..];
    LitBytesStart(d0, op0, op - 2, 16 * Nibble(ip0 - anchor), j.src[anchor..ip0]);
    ok, op, ip := EncodeEnd(j, dest, op0, op, anchor, ip0, m, atLeast, limit);
    if !ok { return; }
    SequenceWritten(d0, dest[..], op0, mid, op, s);
  }

  lemma SequenceDone(j: Job, d0: seq<byte>, d: seq<byte>, op0: nat, op: nat,
                     anchor: nat, ip0: nat, m: nat, ip: nat, ss: seq<Sequence>, s: Sequence)
    requires j.Valid() && op0 <= op <= |d| == |d0| && Written(j, d0[..op0], anchor, ss) && anchor <= ip0
    requires ip0 + MINMATCH <= ip <= j.Matchlimit() && Found(j, ip0, m, ip - ip0)
    requires s == Sequence(j.src[anchor..ip0], ip0 - m, ip - ip0) && Writable(s)
    requires forall k :: 0 <= k < op0 ==> d[k] == d0[k]
    requires d[op0..op] == SeqBytes(s)
    ensures Written(j, d[..op], ip, ss + [s])
    ensures 255 * op <= 256 * (ip - j.s0)
  {
    hide SeqBytes;
    assert d[..op0] == d0[..op0];
    assert d[..op] == d[..op0] + d[op0..op];
    WrittenSnoc(j, d0[..op0], anchor, ss, ip0, m, ip, s, d[..op]);
    BlockBytesSize(ss + [s]);
  }

  lemma LitBytesStart(d: seq<byte>, token: nat, end: nat, t: byte, lits: seq<byte>)
    requires token < end <= |d| && d[token..end] == LitBytes(t, lits)
    ensures d[token] == t
  {
    assert d[token] == d[token..end][0];
  }

  /** The parts of a sequence in place make up its bytes: d0 before the match length was
      written, d after. */
  lemma SequenceWritten(d0: seq<byte>, d: seq<byte>, op0: nat, mid: nat, op: nat, s: Sequence)
    requires Writable(s) && op0 + 3 <= mid <= op <= |d| == |d0|
    requires d0[op0..mid - 2] == LitBytes(16 * Nibble(|s.lits|), s.lits)
    requires d0[mid - 2..mid] == LE16Bytes(s.offset)
    requires forall k :: op0 < k < mid ==> d[k] == d0[k]
    requires d[op0] == d0[op0] + Nibble(s.matchLen - MINMATCH)
    requires d[mid..op] == ExtOf(s.matchLen - MINMATCH)
    ensures d[op0..op] == SeqBytes(s)
  {
    var lits := d0[op0..mid - 2];
    assert d[op0] == lits[0] + Nibble(s.matchLen - MINMATCH) == TokenOf(|s.lits|, s.matchLen - MINMATCH);
    assert d[op0 + 1..mid - 2] == lits[1..] == ExtOf(|s.lits|) + s.lits;
    assert d[op0..mid - 2] == [d[op0]] + d[op0 + 1..mid - 2];
    assert d[mid - 2..mid] == d0[mid - 2..mid];
    assert d[mid - 2..op] == d[mid - 2..mid] + d[mid..op];
    assert d[op0..op] == d[op0..mid - 2] + d[mid - 2..op];
  }

  /** The last run of literals; answers 0 when it does not fit the budget. */
  method LastLiterals(j: Job, dest: array<byte>, op0: nat, anchor: nat, limit: Limit, ghost ss: seq<Sequence>)
    returns (r: nat)
    requires j.Valid() && Room(j, limit, dest.Length) && op0 <= dest.Length
    requires Written(j, dest[..op0], anchor, ss)
    modifies dest
    ensures r <= dest.Length && (Ample(j, limit) ==> r > 0)
    ensures Answer(j, Parsed(ss, anchor), limit, r, dest[..r])
    ensures r > 0 ==> Encodes(dest[..r], j.src[j.low..j.s0], j.src[j.s0..j.Iend()])
    ensures r <= CompressBound(j.n)
    ensures r > 0 && op0 == 0 && anchor == j.Iend() ==> dest[..r] == [0]
  {
    hide LastBytes, LitBytes, BlockBytes, Ext, SequenceSize;
    var lastRun := j.Iend() - anchor;
    WrittenSize(j, dest[..op0], anchor, ss);
    LastFits(op0, anchor - j.s0, lastRun);
    if limit.Limited? && op0 + lastRun + 1 + (lastRun + 240) / 255 > limit.max { return 0; }
    ghost var block := dest[..op0];
    r := EmitLast(dest, op0, j.src, anchor, lastRun);
    ghost var last := dest[op0..r];
    assert dest[..r] == block + last;
    LastDone(j, block, anchor, ss, last, dest[..r]);
    if op0 == 0 && lastRun == 0 { NoLiterals(j.src[anchor..anchor], dest[..r]); }
  }

  lemma NoLiterals(lits: seq<byte>, d: seq<byte>)
    requires lits == [] && d == [] + LastBytes(lits)
    ensures d == [0]
  {
  }

  lemma LastFits(op: nat, a: nat, lastRun: nat)
    requires 255 * op <= 256 * a
    ensures op + 1 + (lastRun + 240) / 255 + lastRun <= CompressBound(a + lastRun)
  {
  }

  lemma LastDone(j: Job, block: seq<byte>, anchor: nat, ss: seq<Sequence>, last: seq<byte>, d: seq<byte>)
    requires j.Valid() && Written(j, block, anchor, ss) && last == LastBytes(j.src[anchor..j.Iend()])
    requires d == block + last
    ensures Encodes(d, j.src[j.low..j.s0], j.src[j.s0..j.Iend()])
  {
    hide LastBytes, Encodes, Replay, Legal, AllWritable, BlockBytes, Span;
    var hist, content := j.src[j.low..j.s0], j.src[j.s0..j.Iend()];
    assert j.src[j.low..anchor] + j.src[anchor..j.Iend()] == hist + content;
    BlockEncodes(hist, ss, j.src[anchor..j.Iend()], content);
  }

  /** After a match: the table learns the position two back and the next one, where a
      candidate is tried at once. */
  method TestNext(j: Job, table: array<nat>, ip: nat, ghost acceleration: nat) returns (ok: bool, m: int)
    requires acceleration >= 1
    requires j.Valid() && j.s0 + 2 <= ip < j.MflimitPlusOne() && TableOk(table, j, j.Index(ip))
    modifies table
    ensures TableOk(table, j, j.Index(ip + 1))
    ensures ok ==> Found(j, ip, m, MINMATCH)
    ensures Next(j, old(table[..]), ip, acceleration)
         == if ok then Hit(ip, m, table[..]) else Find(j, table[..], ip + 1, 1, acceleration * 64)
  {
    PutLower(table, j, ip - 2, ip);
    var h := j.HashAt(ip);
    var matchIndex := table[h];
    PutIndexOnHash(table, j, j.Index(ip), h);
    ok, m := Candidate(j, ip, matchIndex);
  }

  /** Stores an earlier position than the next one to be looked up. */
  method PutLower(table: array<nat>, j: Job, p: nat, ip: nat)
    requires j.Valid() && j.s0 <= p < ip < j.MflimitPlusOne() && TableOk(table, j, j.Index(ip))
    modifies table
    ensures TableOk(table, j, j.Index(ip)) && table[..] == Put(j, old(table[..]), p)
  {
    var h, idx := j.HashAt(p), j.Index(p);
    table[h] := if j.byU16 then idx % 0x1_0000 else idx % U32;
  }

  /** The block of a parse, when it fits the budget, and 0 when it does not. */
  ghost predicate Answer(j: Job, p: Parsed, limit: Limit, r: nat, block: seq<byte>)
    requires j.Valid() && p.anchor <= j.Iend()
  {
    if limit.Limited? && Size(j, p) > limit.max then r == 0
    else r == Size(j, p) && IsBlock(j, p, block)
  }

  lemma AnswerFits(j: Job, p: Parsed, max: nat, r: nat, block: seq<byte>)
    requires j.Valid() && p.anchor <= j.Iend() && Answer(j, p, Limited(max), r, block) && IsParse(j, p)
    ensures r <= max && (LastSize(j.n) <= max ==> r > 0)
  {
    ParseSize(j, p);
  }

  /** An unlimited answer that happens to fit a budget is the answer for that budget. */
  lemma UnlimitedFits(j: Job, p: Parsed, max: nat, r: nat, block: seq<byte>)
    requires j.Valid() && p.anchor <= j.Iend() && Answer(j, p, NotLimited, r, block) && r <= max
    ensures Answer(j, p, Limited(max), r, block)
  {
  }

  /** A run of equal bytes without history is compressed to a 255th. */
  lemma RunAnswer(j: Job, table: seq<nat>, acceleration: nat, max: nat, r: nat, block: seq<byte>)
    requires Sized(j, |table|) && acceleration >= 1 && j.low == j.s0
    requires Answer(j, Parse(j, table, acceleration), Limited(max), r, block)
    ensures IsRun(j.src[j.s0..j.Iend()]) ==> r == if RunSize(j.n) <= max then RunSize(j.n) else 0
  {
    hide Parse, Size, IsRun, RunSize;
    if IsRun(j.src[j.s0..j.Iend()]) {
      RunUniform(j);
      UniformParse(j, table, acceleration);
    }
  }

  lemma TableEntries(table: array<nat>, j: Job)
    requires j.Valid() && TableOk(table, j, j.startIndex + 1)
    ensures Sized(j, table.Length) && Entries(j, table[..], j.startIndex + 1)
  {
  }

  /** LZ4_compress_generic.  The answer is the block of the parse, which does not depend on the
      budget, or 0 when the budget is smaller: none of the checks on the way is too strict.
      The block decodes, after the history, to the content, whatever the hash function. */
  method CompressGeneric(j: Job, table: array<nat>, dest: array<byte>, limit: Limit, acceleration: nat)
    returns (r: nat)
    requires j.Valid() && Capacity(j, limit, dest.Length) && table.Length > 0 && acceleration >= 1
    requires TableOk(table, j, j.startIndex + 1)
    modifies table, dest
    ensures r <= dest.Length && (Ample(j, limit) ==> r > 0)
    ensures Answer(j, Parse(j, old(table[..]), acceleration), limit, r, dest[..r])
    ensures IsParse(j, Parse(j, old(table[..]), acceleration))
    ensures r > 0 ==> Encodes(dest[..r], j.src[j.low..j.s0], j.src[j.s0..j.Iend()])
    ensures r <= CompressBound(j.n)
    ensures r > 0 && j.n == 0 ==> dest[..r] == [0]
    ensures TableOk(table, j, j.startIndex + j.n + 1)
  {
    TableEntries(table, j);
    ParseOk(j, table[..], acceleration);
    hide Written, TableOk, Parse, Size, IsBlock, Encodes, IsParse;
    var op, anchor := 0, j.s0;
    ghost var ss := [];
    WrittenStart(j, dest[..op]);
    TableSized(table, j, j.startIndex + 1);
    if j.n >= MIN_LENGTH {
      var ok;
      ok, op, anchor, ss := CompressLoop(j, table, dest, limit, acceleration);
      if !ok { return 0; }
    } else {
      ParseShort(j, table[..], acceleration);
      TableLater(table, j, j.s0 + 1, j.Iend() + 1);
    }
    r := LastLiterals(j, dest, op, anchor, limit, ss);
  }

  /** The main loop: false only when the budget is spent. */
  method CompressLoop(j: Job, table: array<nat>, dest: array<byte>, limit: Limit, acceleration: nat)
    returns (ok: bool, op: nat, anchor: nat, ghost ss: seq<Sequence>)
    requires j.Valid() && Capacity(j, limit, dest.Length) && acceleration >= 1 && j.n >= MIN_LENGTH
    requires TableOk(table, j, j.startIndex + 1)
    modifies table, dest
    ensures Ample(j, limit) ==> ok
    ensures ok ==> op <= dest.Length && Written(j, dest[..op], anchor, ss)
    ensures ok ==> Parse(j, old(table[..]), acceleration) == Parsed(ss, anchor)
    ensures !ok ==> limit.Limited? && Size(j, Parse(j, old(table[..]), acceleration)) > limit.max
    ensures TableOk(table, j, j.startIndex + j.n + 1)
  {
    hide Written, TableOk, SeqBytes, Same, Find, Next, Rest, Parse, Put, Before, MatchLength, Size, SequencesSize;
    op, anchor, ok, ss := 0, j.s0, true, [];
    WrittenStart(j, dest[..op]);
    TableSized(table, j, j.startIndex + 1);
    ghost var whole := Parse(j, table[..], acceleration);
    PutLower(table, j, j.s0, j.s0 + 1);
    var ip, immediate, m := j.s0 + 1, false, 0;
    ghost var at := Find(j, table[..], ip, 1, acceleration * 64);
    ParseStart(j, old(table[..]), acceleration);
    JoinedNothing(whole);
    while true
      invariant ok && op <= dest.Length && j.s0 <= anchor <= j.Iend() && Written(j, dest[..op], anchor, ss)
      invariant immediate ==> RoomForNext(j, limit, dest.Length, op, anchor)
      invariant immediate ==> ip == anchor && Found(j, ip, m, MINMATCH) && TableOk(table, j, j.Index(ip + 1))
      invariant !immediate ==> anchor < ip <= j.MflimitPlusOne() && TableOk(table, j, j.Index(ip))
      invariant Sound(j, at, anchor, table.Length)
      invariant whole == Joined(ss, Rest(j, at, anchor, acceleration, table.Length))
      invariant immediate ==> at == Hit(ip, m, table[..])
      invariant !immediate ==> at == Find(j, table[..], ip, 1, acceleration * 64)
      decreases j.Iend() - anchor
    {
      var found, atLeast;
      found, ip, m, atLeast := Locate(j, table, anchor, ip, m, immediate, acceleration, at);
      if !found {
        RestMiss(j, anchor, acceleration, table.Length, ss);
        return;
      }
      FoundFits(j, ip, m, atLeast);
      ghost var s, d0, op0, ip0 := Sequence([], 0, 0), dest[..], op, ip;
      WrittenSize(j, dest[..op], anchor, ss);
      ok, op, ip, s := EncodeSequence(j, dest, op, anchor, ip, m, atLeast, limit, immediate);
      ParseStep(j, ss, at, anchor, acceleration, table.Length, ip0, m, s, whole);
      if !ok {
        PartSize(j, ss, s, whole, limit.max);
        TableLater(table, j, at.ip + 1, j.Iend() + 1);
        return;
      }
      SequenceDone(j, d0, dest[..], op0, op, anchor, ip0, m, ip, ss, s);
      TableLater(table, j, at.ip + 1, ip);
      anchor, ss := ip, ss + [s];
      if ip >= j.MflimitPlusOne() {
        TableLater(table, j, ip, j.Iend() + 1);
        return;
      }
      immediate, m := TestNext(j, table, ip, acceleration);
      at := Next(j, at.table, anchor, acceleration);
      if !immediate { ip := ip + 1; }
    }
  }

  /** The match to be encoded next: the one already there, or one searched and caught up. */
  method Locate(j: Job, table: array<nat>, anchor: nat, ip0: nat, m0: int, immediate: bool, acceleration: nat,
                ghost at: SearchEnd)
    returns (found: bool, ip: nat, m: int, atLeast: nat)
    requires j.Valid() && j.n >= MIN_LENGTH && acceleration >= 1 && j.s0 <= anchor && Sized(j, table.Length)
    requires immediate ==> ip0 == anchor && Found(j, ip0, m0, MINMATCH) && TableOk(table, j, j.Index(ip0 + 1))
    requires immediate ==> at == Hit(ip0, m0, table[..])
    requires !immediate ==> anchor < ip0 <= j.MflimitPlusOne() && TableOk(table, j, j.Index(ip0))
    requires !immediate ==> at == Find(j, table[..], ip0, 1, acceleration * 64)
    modifies table
    ensures found == at.Hit?
    ensures !found ==> TableOk(table, j, j.startIndex + j.n + 1)
    ensures found ==> && anchor <= ip <= at.ip && Found(j, ip, m, atLeast) && (immediate ==> ip == anchor)
                      && atLeast == at.ip - ip + MINMATCH && at.ip < j.MflimitPlusOne() && at.m <= at.ip
                      && ip == at.ip - Before(j.src, at.ip, at.m, anchor, j.low) && m == at.m - (at.ip - ip)
                      && table[..] == at.table && TableOk(table, j, j.Index(at.ip + 1))
  {
    hide TableOk, Same, Find, Before;
    found, ip, m, atLeast := true, ip0, m0, MINMATCH;
    if immediate {
      BeforeIs(j.src, ip, m, anchor, j.low, 0);
    } else {
      found, ip, m := FindMatch(j, table, ip0, j.HashAt(ip0), acceleration);
      if !found {
        TableLater(table, j, j.MflimitPlusOne(), j.Iend() + 1);
        return;
      }
      var at4 := ip + MINMATCH;
      ip, m := CatchUp(j, ip, m, anchor);
      atLeast := at4 - ip;
    }
  }

  // ------------------------------------------------- where the check is short

  /** A run of equal bytes for the least match the check is not enough for, then other bytes. */
  function LongSource(size: nat): (src: seq<byte>)
    ensures |src| == size
  {
    seq(size, i => if i < SHORT_CODE + MINMATCH + 1 then 0 else 1)
  }

  /** A job on such a source: all of it, or all but the first byte, which is history then. */
  function LongJob(n: nat, history: bool, startIndex: nat, hash: Hash): Job {
    var s0 := if history then 1 else 0;
    Job(LongSource(s0 + n), s0, n, 0, startIndex, false, false, hash)
  }

  /** From ShortSize on there is a source of every size with which the check is not enough, whatever
      the table and the hash function: the compressor's own first steps lead to a match that passes
      both checks of a budget and is written one byte past it.  Below it, Slack is 0. */
  method CheckShort(n: nat, history: bool, startIndex: nat, hash: Hash, table: array<nat>, acceleration: nat)
    returns (ip: nat, m: nat, mc: nat)
    requires var j := LongJob(n, history, startIndex, hash);
             j.Valid() && table.Length > 0 && TableOk(table, j, j.startIndex + 1) && acceleration >= 1
    requires n >= ShortSize(history)
    modifies table
    ensures var j := LongJob(n, history, startIndex, hash);
            && mc == SHORT_CODE && Found(j, ip, m, MINMATCH + mc) && ip + MINMATCH + mc <= j.Matchlimit()
            && var ll := ip - j.s0;
               var op := 1 + ll + 2;
               var max := op + 1 + LASTLITERALS + mc / 256;
               && 1 + ll + (2 + 1 + LASTLITERALS) + ll / 255 <= max < CompressBound(n)
               && PassesCheck(op, mc, max) && op + MatchReach(mc) == max + 1
  {
    hide TableOk, Usable, Find;
    var j := LongJob(n, history, startIndex, hash);
    PutLower(table, j, j.s0, j.s0 + 1);
    EqualHashes(j);
    FindAtOnce(j, table[..], j.s0 + 1, acceleration * 64);
    var found;
    found, ip, m := FindMatch(j, table, j.s0 + 1, j.HashAt(j.s0 + 1), acceleration);
    ip, m := CatchUp(j, ip, m, j.s0);
    assert ip == 1 && m == 0;
    mc := Count(j.src, ip + MINMATCH, m + MINMATCH, j.Matchlimit());
    assert j.src[SHORT_CODE + MINMATCH] == 0 && j.src[SHORT_CODE + MINMATCH + 1] == 1;
  }

  lemma EqualHashes(j: Job)
    requires j.Valid() && j.s0 + SHORT_CODE <= |j.src| && j.s0 <= 1 && j.src == LongSource(|j.src|)
    ensures j.HashAt(j.s0) == j.HashAt(j.s0 + 1)
  {
    assert j.src[j.s0..j.s0 + 8] == j.src[j.s0 + 1..j.s0 + 9];
  }
}
