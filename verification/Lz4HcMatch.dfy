/** LZ4HC_InsertAndGetWiderMatch over one segment: follows hash chains, skips through repeated
    patterns and switches chains, and only ever answers with bytes that agree. */
module Lz4HcMatch {
  import opened Lz4Format
  import opened Lz4Parse
  import opened Lz4Compressor
  import opened Lz4HcChain

  /** LZ4HC_countBack: how many bytes agree before ip and match, as a negative number. */
  method CountBack(src: seq<byte>, ip: nat, match_: nat, iMin: nat, mMin: nat) returns (back: int)
    requires mMin <= match_ < ip && iMin <= ip <= |src|
    ensures Max(iMin - ip, mMin - match_) <= back <= 0 && Same(src, ip + back, match_ + back, -back)
    ensures back > Max(iMin - ip, mMin - match_) ==> src[ip + back - 1] != src[match_ + back - 1]
  {
    back := 0;
    var min := Max(iMin - ip, mMin - match_);
    while back > min && src[ip + back - 1] == src[match_ + back - 1]
      invariant min <= back <= 0 && Same(src, ip + back, match_ + back, -back)
    {
      back := back - 1;
    }
  }

  // ------------------------------------------------------------ repeated patterns

  /** src repeats the four bytes of pat from position p on, for n bytes. */
  predicate Repeats(src: seq<byte>, p: nat, n: nat, pat: seq<byte>)
    requires |pat| == 4
  {
    p + n <= |src| && (n > 0 ==> src[p + n - 1] == pat[(n - 1) % 4] && Repeats(src, p, n - 1, pat))
  }

  /** src repeats the four bytes of pat up to position p, for n bytes. */
  predicate RepeatsBack(src: seq<byte>, p: nat, n: nat, pat: seq<byte>)
    requires |pat| == 4
  {
    n <= p <= |src| && (n > 0 ==> src[p - n] == pat[(0 - n) % 4] && RepeatsBack(src, p, n - 1, pat))
  }

  /** LZ4_NbCommonBytes on the difference of eight bytes and the pattern twice. */
  method CommonPattern(src: seq<byte>, p: nat, n: nat, pat: seq<byte>) returns (c: nat)
    requires |pat| == 4 && p + n + 8 <= |src| && n % 8 == 0 && Repeats(src, p, n, pat)
    ensures c <= 8 && Repeats(src, p, n + c, pat) && (c < 8 ==> src[p + n + c] != pat[(n + c) % 4])
  {
    c := 0;
    while c < 8 && src[p + n + c] == pat[c % 4]
      invariant c <= 8 && Repeats(src, p, n + c, pat)
    {
      assert (n + c) % 4 == c % 4;
      c := c + 1;
    }
    assert (n + c) % 4 == c % 4;
  }

  /** LZ4HC_countPattern: how far the pattern repeats, eight bytes at a time and then one. */
  method CountPattern(src: seq<byte>, ip: nat, iEnd: nat, pat: seq<byte>) returns (n: nat)
    requires |pat| == 4 && ip <= iEnd <= |src|
    ensures ip + n <= iEnd && Repeats(src, ip, n, pat)
    ensures ip + n < iEnd ==> src[ip + n] != pat[n % 4]
  {
    n := 0;
    while ip + n + 7 < iEnd
      invariant ip + n <= iEnd && n % 8 == 0 && Repeats(src, ip, n, pat)
    {
      var c := CommonPattern(src, ip, n, pat);
      if c < 8 { return n + c; }
      n := n + 8;
    }
    while ip + n < iEnd && src[ip + n] == pat[n % 4]
      invariant ip + n <= iEnd && Repeats(src, ip, n, pat)
    {
      n := n + 1;
    }
  }

  predicate WordIs(src: seq<byte>, p: nat, pat: seq<byte>)
    requires |pat| == 4 && p + 4 <= |src|
  {
    src[p] == pat[0] && src[p + 1] == pat[1] && src[p + 2] == pat[2] && src[p + 3] == pat[3]
  }

  /** LZ4HC_reverseCountPattern: how far back before ip the pattern repeats, four bytes at a time
      and then one, never below iLow. */
  method ReverseCountPattern(src: seq<byte>, ip: nat, iLow: nat, pat: seq<byte>) returns (n: nat)
    requires |pat| == 4 && ip <= |src|
    ensures RepeatsBack(src, ip, n, pat) && (n > 0 ==> ip - n >= iLow)
    ensures ip - n > iLow ==> src[ip - n - 1] != pat[(-1 - n) % 4]
  {
    n := 0;
    while ip - n >= iLow + 4 && WordIs(src, ip - n - 4, pat)
      invariant n % 4 == 0 && RepeatsBack(src, ip, n, pat) && (n > 0 ==> ip - n >= iLow)
    {
      FourMore(src, ip, n, pat);
      n := n + 4;
    }
    n := ReverseTail(src, ip, iLow, n, pat);
  }

  /** The last bytes, fewer than four: less than a whole pattern is left, or it does not repeat. */
  method ReverseTail(src: seq<byte>, ip: nat, iLow: nat, whole: nat, pat: seq<byte>) returns (n: nat)
    requires |pat| == 4 && whole % 4 == 0 && RepeatsBack(src, ip, whole, pat) && (whole > 0 ==> ip - whole >= iLow)
    requires ip - whole >= iLow + 4 ==> !WordIs(src, ip - whole - 4, pat)
    ensures whole <= n && RepeatsBack(src, ip, n, pat) && (n > 0 ==> ip - n >= iLow)
    ensures ip - n > iLow ==> src[ip - n - 1] != pat[(-1 - n) % 4]
  {
    n := whole;
    var b := 3;
    while ip - n > iLow && src[ip - n - 1] == pat[b]
      invariant whole <= n <= ip && b == 3 - (n - whole) && b >= 0 && (n > 0 ==> ip - n >= iLow)
      invariant RepeatsBack(src, ip, n, pat)
      invariant b < 3 ==> src[ip - whole - 1] == pat[3]
      invariant b < 2 ==> src[ip - whole - 2] == pat[2]
      invariant b < 1 ==> src[ip - whole - 3] == pat[1]
      decreases ip - n
    {
      Before(n, whole, b);
      assert b > 0;
      n, b := n + 1, b - 1;
    }
    Before(n, whole, b);
  }

  lemma Before(n: nat, whole: nat, b: nat)
    requires whole % 4 == 0 && n == whole + 3 - b && b <= 3
    ensures (-1 - n) % 4 == b && (0 - (n + 1)) % 4 == b
  {
  }

  lemma FourMore(src: seq<byte>, p: nat, n: nat, pat: seq<byte>)
    requires |pat| == 4 && n % 4 == 0 && RepeatsBack(src, p, n, pat) && n + 4 <= p
    requires WordIs(src, p - n - 4, pat)
    ensures RepeatsBack(src, p, n + 4, pat)
  {
    assert RepeatsBack(src, p, n + 1, pat);
    assert RepeatsBack(src, p, n + 2, pat);
    assert RepeatsBack(src, p, n + 3, pat);
  }

  /** Repetitions of one byte. */
  predicate AllAre(src: seq<byte>, from: nat, to: nat, b: byte) {
    from <= to <= |src| && forall k :: from <= k < to ==> src[k] == b
  }

  lemma {:induction false} RepeatsByte(src: seq<byte>, p: nat, n: nat, b: byte)
    requires Repeats(src, p, n, [b, b, b, b])
    ensures AllAre(src, p, p + n, b)
  {
    if n > 0 { RepeatsByte(src, p, n - 1, b); }
  }

  lemma {:induction false} RepeatsBackByte(src: seq<byte>, p: nat, n: nat, b: byte)
    requires RepeatsBack(src, p, n, [b, b, b, b])
    ensures AllAre(src, p - n, p, b)
  {
    if n > 0 { RepeatsBackByte(src, p, n - 1, b); }
  }

  // ------------------------------------------------------------- the wider match

  datatype Repeat = Untested | Not | Confirmed

  /** The best match of a search so far: longer than what the caller had only if the bytes at start
      and match_ agree that far, within reach of an offset and within the limits. */
  datatype Best = Best(longest: nat, start: nat, match_: nat)
  {
    predicate Sound(src: seq<byte>, iLow: nat, ip: nat, iHigh: nat, had: nat) {
      && had <= longest && iLow + longest <= iHigh <= |src|
      && (longest > had ==>
            && MINMATCH <= longest && iLow <= start <= ip && start + longest <= iHigh
            && match_ < start <= match_ + DISTANCE_MAX && Same(src, start, match_, longest))
    }
  }

  /** What one search is given. */
  datatype Search = Search(ip: nat, iLow: nat, iHigh: nat, had: nat, patternAnalysis: bool, chainSwap: bool,
                           favorDecSpeed: bool)
  {
    function LookBack(): int { ip - iLow }

    /** Candidates this near are not looked at when decompression speed comes first. */
    predicate Skips(m: int) { favorDecSpeed && ip - m < 8 }

    /** ip can be read and extended; what is asked for reaches beyond ip. */
    predicate Valid(src: seq<byte>) {
      && iLow <= ip && ip + MINMATCH <= iHigh < |src|
      && LookBack() < had && iLow + had <= iHigh
      && (chainSwap ==> LookBack() == 0)
    }
  }

  /** The lowest index a match may have: within the segment, and at a distance of 16 bits. */
  function LowestMatchIndex(lowLimit: nat, ipIndex: nat): (lo: nat)
    requires lowLimit <= ipIndex
    ensures lowLimit <= lo && ipIndex <= lo + DISTANCE_MAX
  {
    if lowLimit + KB64 > ipIndex then lowLimit else ipIndex - DISTANCE_MAX
  }

  /** A match over the four bytes at ip, which meet those at m: n bytes from start on. */
  predicate Around(src: seq<byte>, g: Search, m: nat, start: nat, n: nat)
    requires g.Valid(src)
  {
    && g.iLow <= start <= g.ip <= start + m && m <= g.ip && g.ip + MINMATCH <= start + n <= g.iHigh
    && Same(src, start, m - (g.ip - start), n)
  }

  /** No match over the bytes at ip and those at m is longer than that. */
  ghost predicate Beaten(src: seq<byte>, g: Search, m: nat, longest: nat)
    requires g.Valid(src)
  {
    forall start: nat, n: nat :: Around(src, g, m, start, n) ==> n <= longest
  }

  /** Compares the bytes at a candidate: the match there, if it is longer than the best one. */
  method Compare(src: seq<byte>, g: Search, m: nat, best: Best) returns (matchLength: nat, b: Best)
    requires g.Valid(src) && best.Sound(src, g.iLow, g.ip, g.iHigh, g.had)
    requires m < g.ip <= m + DISTANCE_MAX
    ensures b.Sound(src, g.iLow, g.ip, g.iHigh, g.had)
    ensures matchLength <= b.longest && best.longest <= b.longest
    ensures Beaten(src, g, m, b.longest)
    ensures g.LookBack() == 0 ==> Same(src, g.ip, m, matchLength)
  {
    matchLength, b := 0, best;
    hide Same, Beaten, Around;
    NoneAgree(src, g.ip, m);
    var at, mt := g.iLow + best.longest - 1, m - g.LookBack() + best.longest - 1;
    if src[at] != src[mt] || src[at + 1] != src[mt + 1] {
      Differs(src, g, m, if src[at] != src[mt] then at else at + 1, best.longest);
      return;
    }
    if !Read32Equal(src, g.ip, m) {
      FirstDiffer(src, g, m, best.longest);
      return;
    }
    var back;
    matchLength, back := Extend(src, g, m);
    Ends(src, g, m, back, matchLength, if matchLength > best.longest then matchLength else best.longest);
    if matchLength > best.longest {
      b := Best(matchLength, g.ip - back, m - back);
    }
  }

  /** The whole match around a candidate whose first four bytes agree. */
  method Extend(src: seq<byte>, g: Search, m: nat) returns (matchLength: nat, back: nat)
    requires g.Valid(src) && m < g.ip && Read32Equal(src, g.ip, m)
    ensures back <= m && back <= g.LookBack() && MINMATCH + back <= matchLength && g.ip - back + matchLength <= g.iHigh
    ensures Same(src, g.ip - back, m - back, matchLength)
    ensures g.ip - back + matchLength < g.iHigh ==> src[g.ip - back + matchLength] != src[m - back + matchLength]
    ensures back == g.LookBack() || back == m || src[g.ip - back - 1] != src[m - back - 1]
  {
    hide Same;
    var negative := 0;
    if g.LookBack() != 0 { negative := CountBack(src, g.ip, m, g.iLow, 0); }
    var count := Count(src, g.ip + MINMATCH, m + MINMATCH, g.iHigh);
    matchLength, back := MINMATCH + count - negative, -negative;
    if back == 0 { NoneAgree(src, g.ip, m); }
    Joined(src, g.ip, m, back, MINMATCH + count);
  }

  lemma NoneAgree(src: seq<byte>, p: nat, m: nat)
    requires m <= p <= |src|
    ensures Same(src, p, m, 0)
  {
  }

  lemma Covered(src: seq<byte>, g: Search, m: nat, start: nat, n: nat, x: nat)
    requires g.Valid(src) && Around(src, g, m, start, n) && start <= x < start + n
    ensures 0 <= x - (g.ip - m) && src[x] == src[x - (g.ip - m)]
  {
  }

  /** The quick test: a longer match would cover the byte at x. */
  lemma Differs(src: seq<byte>, g: Search, m: nat, x: nat, longest: nat)
    requires g.Valid(src) && m < g.ip && g.LookBack() < longest && x in {g.iLow + longest - 1, g.iLow + longest}
    requires 0 <= x - (g.ip - m) && x < |src| && src[x] != src[x - (g.ip - m)]
    ensures Beaten(src, g, m, longest)
  {
    hide Around;
    forall start: nat, n: nat | Around(src, g, m, start, n) ensures n <= longest {
      AroundLimits(src, g, m, start, n);
      if n > longest { Covered(src, g, m, start, n, x); }
    }
  }

  lemma AroundLimits(src: seq<byte>, g: Search, m: nat, start: nat, n: nat)
    requires g.Valid(src) && Around(src, g, m, start, n)
    ensures g.iLow <= start <= g.ip <= start + m && m <= g.ip && g.ip + MINMATCH <= start + n <= g.iHigh
  {
  }

  lemma FirstDiffer(src: seq<byte>, g: Search, m: nat, longest: nat)
    requires g.Valid(src) && m < g.ip && !Read32Equal(src, g.ip, m)
    ensures Beaten(src, g, m, longest)
  {
    hide Around;
    var k := if src[g.ip] != src[m] then 0 else if src[g.ip + 1] != src[m + 1] then 1
             else if src[g.ip + 2] != src[m + 2] then 2 else 3;
    forall start: nat, n: nat ensures !Around(src, g, m, start, n) {
      if Around(src, g, m, start, n) {
        AroundLimits(src, g, m, start, n);
        Covered(src, g, m, start, n, g.ip + k);
      }
    }
  }

  /** A match that cannot be extended is the longest there. */
  lemma Ends(src: seq<byte>, g: Search, m: nat, back: nat, len: nat, longest: nat)
    requires g.Valid(src) && m < g.ip && back <= m && back <= g.LookBack() && len <= longest
    requires g.ip - back + len <= g.iHigh && back <= len
    requires g.ip - back + len < g.iHigh ==> src[g.ip - back + len] != src[m - back + len]
    requires back == g.LookBack() || back == m || src[g.ip - back - 1] != src[m - back - 1]
    ensures Beaten(src, g, m, longest)
  {
    hide Around;
    forall start: nat, n: nat | Around(src, g, m, start, n) ensures n <= longest {
      AroundLimits(src, g, m, start, n);
      if start < g.ip - back { Covered(src, g, m, start, n, g.ip - back - 1); }
      if start + n > g.ip - back + len { Covered(src, g, m, start, n, g.ip - back + len); }
    }
  }

  /** Bytes that agree before, four that do, and bytes that agree after them. */
  lemma Joined(src: seq<byte>, p: nat, m: nat, back: nat, len: nat)
    requires back <= m < p && MINMATCH <= len && p + len <= |src|
    requires Same(src, p - back, m - back, back) && Read32Equal(src, p, m)
    requires Same(src, p + MINMATCH, m + MINMATCH, len - MINMATCH)
    ensures Same(src, p - back, m - back, back + len)
  {
    forall k | p - back <= k < p + len ensures src[k] == src[k - (p - m)] {
      if p <= k < p + MINMATCH {
        assert src[p] == src[m] && src[p + 1] == src[m + 1] && src[p + 2] == src[m + 2] && src[p + 3] == src[m + 3];
      }
    }
  }

  /** chainSwap: among the positions of the match, the one whose chain leads furthest back. */
  method BetterChain(c: Chains, matchIndex: nat, longest: nat, chainPos: nat) returns (distance: nat, pos: nat)
    requires c.chainTable.Length == MAXD
    ensures distance >= 1 && (distance == 1 ==> pos == chainPos)
    ensures distance > 1 ==> pos + MINMATCH <= longest && distance == c.Delta(matchIndex + pos)
    ensures forall i :: matchIndex <= i <= matchIndex + longest - MINMATCH ==> distance >= c.Delta(i)
  {
    distance, pos := 1, chainPos;
    var k := 0;
    while k <= longest - MINMATCH
      invariant 0 <= k && distance >= 1 && (distance == 1 ==> pos == chainPos)
      invariant distance > 1 ==> pos < k && pos + MINMATCH <= longest && distance == c.Delta(matchIndex + pos)
      invariant forall i :: matchIndex <= i < matchIndex + k ==> distance >= c.Delta(i)
    {
      var candidateDist := c.Delta(matchIndex + k);
      if candidateDist > distance { distance, pos := candidateDist, k; }
      k := k + 1;
    }
  }

  /** What has been found out about the bytes at ip. */
  ghost predicate RepeatOk(src: seq<byte>, g: Search, repeat: Repeat, n: nat)
    requires g.Valid(src)
  {
    repeat == Confirmed ==> && 4 <= n && g.ip + n <= g.iHigh && AllAre(src, g.ip, g.ip + n, src[g.ip])
                            && (g.ip + n < g.iHigh ==> src[g.ip + n] != src[g.ip])
  }

  /** Whether the four bytes at ip repeat one byte and, if so, how far from ip on. */
  method TestRepeat(src: seq<byte>, g: Search) returns (repeat: Repeat, n: nat)
    requires g.Valid(src)
    ensures repeat != Untested && RepeatOk(src, g, repeat, n)
  {
    var b, ip := src[g.ip], g.ip;
    if src[ip] != src[ip + 2] || src[ip + 1] != src[ip + 3] || src[ip] != src[ip + 3] { return Not, 0; }
    var count := CountPattern(src, ip + 4, g.iHigh, [b, b, b, b]);
    RepeatsByte(src, ip + 4, count, b);
    return Confirmed, count + 4;
  }

  /** A stretch of the byte b around position m: from back bytes before it on, forward bytes after. */
  method Stretch(src: seq<byte>, m: nat, lowest: nat, iHigh: nat, b: byte) returns (back: nat, forward_: nat)
    requires m + 4 <= iHigh <= |src| && src[m] == src[m + 1] == src[m + 2] == src[m + 3] == b
    ensures back <= m && forward_ >= 4 && m + forward_ <= iHigh && (back > 0 ==> m - back >= lowest)
    ensures AllAre(src, m - back, m + forward_, b)
    ensures m + forward_ < iHigh ==> src[m + forward_] != b
  {
    var pat := [b, b, b, b];
    var count := CountPattern(src, m + 4, iHigh, pat);
    RepeatsByte(src, m + 4, count, b);
    back := ReverseCountPattern(src, m, lowest, pat);
    RepeatsBackByte(src, m, back, b);
    forward_ := count + 4;
  }

  lemma StretchesAgree(src: seq<byte>, ip: nat, m: nat, len: nat, n: nat, k: nat, b: byte)
    requires m < ip && AllAre(src, ip, ip + n, b) && AllAre(src, m, m + k, b) && len <= n && len <= k
    ensures Same(src, ip, m, len)
  {
  }

  // -------------------------------------------------------------- nothing is missed

  /** All candidates of the window above an index are beaten. */
  ghost predicate Tried(src: seq<byte>, low: nat, g: Search, lowest: nat, above: int, longest: nat)
    requires g.Valid(src)
  {
    forall m: nat :: lowest <= m + low && above < m + low && m < g.ip && !g.Skips(m) ==> Beaten(src, g, m, longest)
  }

  /** A jump through a pattern promises a match at the index it leads to, no shorter than any it jumps over. */
  ghost predicate Promise(src: seq<byte>, low: nat, g: Search, lowest: nat, idx: int, promised: nat)
    requires g.Valid(src)
  {
    promised > 0 ==> && lowest <= idx && low <= idx < g.ip + low && g.LookBack() == 0
                     && Around(src, g, idx - low, g.ip, promised)
  }

  /** The bytes pos behind an index of the chain have the hash of those pos behind ip. */
  predicate OnChain(src: seq<byte>, low: nat, g: Search, lowest: nat, idx: int, pos: nat, longest: nat) {
    && (pos == 0 || (g.LookBack() == 0 && pos + MINMATCH <= longest))
    && (lowest <= idx ==> Key(src, low, idx + pos) == Key(src, low, g.ip + low + pos))
  }

  /** What is known when the search is at an index: nothing longer is to be found above it. */
  ghost predicate Known(src: seq<byte>, low: nat, g: Search, lowest: nat, idx: int, pos: nat, best: Best, promised: nat)
    requires g.Valid(src)
  {
    && Promise(src, low, g, lowest, idx, promised) && OnChain(src, low, g, lowest, idx, pos, best.longest)
    && (promised > 0 ==> pos == 0) && Tried(src, low, g, lowest, idx, Max(best.longest, promised))
  }

  /** A search that can only give up for lack of attempts. */
  predicate Lossless(g: Search) {
    g.LookBack() == 0 || (!g.patternAnalysis && !g.chainSwap)
  }

  lemma BeatenMore(src: seq<byte>, g: Search, m: nat, longest: nat, more: nat)
    requires g.Valid(src) && Beaten(src, g, m, longest) && longest <= more
    ensures Beaten(src, g, m, more)
  {
  }

  lemma TriedMore(src: seq<byte>, low: nat, g: Search, lowest: nat, above: int, longest: nat, more: nat)
    requires g.Valid(src) && Tried(src, low, g, lowest, above, longest) && longest <= more
    ensures Tried(src, low, g, lowest, above, more)
  {
    hide Beaten;
    forall m: nat | lowest <= m + low && above < m + low && m < g.ip && !g.Skips(m)
      ensures Beaten(src, g, m, more)
    {
      BeatenMore(src, g, m, longest, more);
    }
  }

  /** After the comparison the promise is kept, and the index itself is beaten. */
  lemma TriedHere(src: seq<byte>, low: nat, g: Search, lowest: nat, idx: nat, longest: nat, promised: nat, more: nat)
    requires g.Valid(src) && low <= idx < g.ip + low && Promise(src, low, g, lowest, idx, promised)
    requires Tried(src, low, g, lowest, idx, Max(longest, promised)) && longest <= more
    requires !g.Skips(idx - low) ==> Beaten(src, g, idx - low, more)
    ensures Tried(src, low, g, lowest, idx - 1, more)
  {
    hide Beaten, Around;
    if !g.Skips(idx - low) {
      if promised > 0 { Kept(src, g, idx - low, promised, more); }
      TriedMore(src, low, g, lowest, idx, Max(longest, promised), more);
    }
  }

  lemma Kept(src: seq<byte>, g: Search, m: nat, promised: nat, longest: nat)
    requires g.Valid(src) && Around(src, g, m, g.ip, promised) && Beaten(src, g, m, longest)
    ensures promised <= longest
  {
  }

  /** Where the hash of the bytes pos behind differs from that of those behind ip, no long match can be. */
  lemma OtherKey(src: seq<byte>, low: nat, g: Search, m: nat, pos: nat, longest: nat)
    requires g.Valid(src) && m < g.ip && Key(src, low, m + low + pos) != Key(src, low, g.ip + low + pos)
    requires pos == 0 || (g.LookBack() == 0 && pos + MINMATCH <= longest)
    ensures Beaten(src, g, m, longest)
  {
    hide Around, HashPtr;
    forall start: nat, n: nat | Around(src, g, m, start, n) ensures n <= longest {
      AroundLimits(src, g, m, start, n);
      if n > longest {
        Covered(src, g, m, start, n, g.ip + pos);
        Covered(src, g, m, start, n, g.ip + pos + 1);
        Covered(src, g, m, start, n, g.ip + pos + 2);
        Covered(src, g, m, start, n, g.ip + pos + 3);
        SameHash(src, g.ip + pos, m + pos);
      }
    }
  }

  lemma SameHash(src: seq<byte>, p: nat, m: nat)
    requires m < p && p + MINMATCH <= |src| && Read32Equal(src, p, m)
    ensures HashPtr(src, m) == HashPtr(src, p)
  {
  }

  /** Past a candidate, the next index on the chain of the bytes pos behind is as far as the chain says. */
  lemma TriedNext(src: seq<byte>, low: nat, g: Search, lowest: nat, idx: nat, pos: nat, longest: nat, d: nat)
    requires g.Valid(src) && low <= lowest <= idx && g.ip + low <= lowest + DISTANCE_MAX && idx + pos < g.ip + low
    requires Tried(src, low, g, lowest, idx - 1, longest) && OnChain(src, low, g, lowest, idx, pos, longest)
    requires LinkOk(src, low, idx + pos, d)
    ensures Tried(src, low, g, lowest, idx - d, longest) && OnChain(src, low, g, lowest, idx - d, pos, longest)
  {
    hide Beaten, Key;
    forall m: nat | lowest <= m + low && idx - d < m + low && m < g.ip && !g.Skips(m)
      ensures Beaten(src, g, m, longest)
    {
      if m + low < idx {
        assert Key(src, low, m + low + pos) != Key(src, low, idx + pos);
        OtherKey(src, low, g, m, pos, longest);
      }
    }
  }

  /** The candidate at an index has been compared. */
  lemma KnownHere(src: seq<byte>, low: nat, g: Search, lowest: nat, idx: nat, pos: nat, best: Best, promised: nat,
                  b: Best)
    requires g.Valid(src) && low <= lowest <= idx < g.ip + low && best.longest <= b.longest
    requires Known(src, low, g, lowest, idx, pos, best, promised)
    requires !g.Skips(idx - low) ==> Beaten(src, g, idx - low, b.longest)
    ensures Tried(src, low, g, lowest, idx - 1, b.longest) && OnChain(src, low, g, lowest, idx, pos, b.longest)
  {
    hide Beaten, Tried, Key;
    TriedHere(src, low, g, lowest, idx, best.longest, promised, b.longest);
  }

  /** At the end of the window nothing longer is left. */
  lemma TriedAll(src: seq<byte>, low: nat, g: Search, lowest: nat, idx: int, longest: nat)
    requires g.Valid(src) && Tried(src, low, g, lowest, idx, longest) && idx < lowest
    ensures forall m: nat :: lowest <= m + low && m < g.ip && !g.Skips(m) ==> Beaten(src, g, m, longest)
  {
    hide Beaten;
  }

  lemma KnownAll(src: seq<byte>, low: nat, g: Search, lowest: nat, idx: int, pos: nat, best: Best, promised: nat)
    requires g.Valid(src) && Known(src, low, g, lowest, idx, pos, best, promised) && idx < lowest
    ensures forall m: nat :: lowest <= m + low && m < g.ip && !g.Skips(m) ==> Beaten(src, g, m, best.longest)
  {
    hide Tried;
    TriedAll(src, low, g, lowest, idx, best.longest);
  }

  /** Two stretches of one byte that end at different lengths: the shorter length is all that agrees. */
  lemma StretchBeaten(src: seq<byte>, g: Search, q: nat, end: nat, n: nat, longest: nat)
    requires g.Valid(src) && q < g.ip && g.LookBack() == 0 && RepeatOk(src, g, Confirmed, n)
    requires AllAre(src, q, end, src[g.ip]) && end <= g.iHigh && (end < g.iHigh ==> src[end] != src[g.ip])
    requires if end - q < n then end - q <= longest else n < end - q && n <= longest
    ensures Beaten(src, g, q, longest)
  {
    hide Around;
    forall start: nat, k: nat | Around(src, g, q, start, k) ensures k <= longest {
      AroundLimits(src, g, q, start, k);
      if k > longest { Covered(src, g, q, start, k, if end - q < n then g.ip + (end - q) else g.ip + n); }
    }
  }

  /** The candidates of a stretch that a jump to an index passes over. */
  lemma TriedStretch(src: seq<byte>, low: nat, g: Search, lowest: nat, from: nat, end: nat, n: nat,
                     candidate: nat, to: int, longest: nat, more: nat)
    requires g.Valid(src) && g.LookBack() == 0 && RepeatOk(src, g, Confirmed, n) && from + low <= candidate < g.ip + low
    requires AllAre(src, from, end, src[g.ip]) && end <= g.iHigh && (end < g.iHigh ==> src[end] != src[g.ip])
    requires candidate - low <= end && from + low <= to + 1
    requires if end + low - to <= n then end + low - to - 1 <= more else n < end + low - candidate && n <= more
    requires end + low - to <= n || candidate == to || n < end + low - candidate
    requires Tried(src, low, g, lowest, candidate, longest) && longest <= more
    ensures Tried(src, low, g, lowest, to, more)
  {
    hide Beaten, RepeatOk;
    forall m: nat | lowest <= m + low && to < m + low && m < g.ip && !g.Skips(m)
      ensures Beaten(src, g, m, more)
    {
      if m + low <= candidate {
        StretchBeaten(src, g, m, end, n, more);
      } else {
        BeatenMore(src, g, m, longest, more);
      }
    }
  }

  /** One step through a repeated pattern: matchIndex is where the next candidate is, or the search
      is over.  When nothing can be added in front, the match is taken from the lengths of the two
      stretches, without comparing, and nothing longer is passed over. */
  method PatternStep(c: Chains, g: Search, candidate: nat, srcLength: nat, best: Best, ghost lowest: nat)
    returns (over: bool, matchIndex: nat, b: Best, ghost promised: nat)
    requires c.Valid() && g.Valid(c.src) && best.Sound(c.src, g.iLow, g.ip, g.iHigh, g.had)
    requires c.nextToUpdate == c.Index(g.ip) && lowest == LowestMatchIndex(c.lowLimit, c.Index(g.ip))
    requires c.lowLimit <= candidate < c.Index(g.ip) && RepeatOk(c.src, g, Confirmed, srcLength)
    requires Read32Equal(c.src, g.ip, candidate - c.lowLimit)
    requires g.LookBack() == 0 ==> Tried(c.src, c.lowLimit, g, lowest, candidate, best.longest)
    ensures b.Sound(c.src, g.iLow, g.ip, g.iHigh, g.had) && best.longest <= b.longest
    ensures matchIndex <= candidate
    ensures g.LookBack() == 0 && over ==> Tried(c.src, c.lowLimit, g, lowest, lowest - 1, b.longest)
    ensures g.LookBack() == 0 && !over ==> Known(c.src, c.lowLimit, g, lowest, matchIndex, 0, b, promised)
  {
    hide HeadsOk, LinksOk, Tried, Known, Beaten, Around;
    var m := candidate - c.lowLimit;
    assert c.src[g.ip + 1] == c.src[g.ip + 2] == c.src[g.ip + 3] == c.src[g.ip];
    var furthest := if DISTANCE_MAX >= g.ip then 0 else g.ip - DISTANCE_MAX;
    var backLength, forwardLength := Stretch(c.src, m, furthest, g.iHigh, c.src[g.ip]);
    var segment := backLength + forwardLength;
    over, b, promised := false, best, 0;
    if segment >= srcLength && forwardLength <= srcLength {
      matchIndex := candidate + forwardLength - srcLength;
      if g.LookBack() == 0 {
        promised := JumpFull(c, g, candidate, srcLength, best, lowest, backLength, forwardLength, matchIndex);
      }
    } else {
      matchIndex := candidate - backLength;
      if g.LookBack() == 0 {
        var maxML := Min(segment, srcLength);
        if best.longest < maxML {
          if g.ip - (matchIndex - c.lowLimit) > DISTANCE_MAX {
            TriedLess(c.src, c.lowLimit, g, lowest, candidate, lowest - 1, b.longest);
            return true, matchIndex, b, 0;
          }
          StretchesAgree(c.src, g.ip, matchIndex - c.lowLimit, maxML, srcLength, segment, c.src[g.ip]);
          b := Best(maxML, g.ip, matchIndex - c.lowLimit);
        }
        c.DeltaRange(matchIndex);
        var distToNext := c.Delta(matchIndex);
        // Indexes start at 64 KB: the test for overflow of the source never succeeds.
        assert distToNext <= matchIndex;
        JumpFirst(c, g, candidate, srcLength, best.longest, b, lowest, backLength, forwardLength, matchIndex);
        matchIndex := matchIndex - distToNext;
      }
    }
  }

  lemma TriedLess(src: seq<byte>, low: nat, g: Search, lowest: nat, idx: nat, above: int, longest: nat)
    requires g.Valid(src) && Tried(src, low, g, lowest, idx, longest) && (idx < lowest || idx <= above)
    ensures Tried(src, low, g, lowest, above, longest)
  {
    hide Beaten;
  }

  /** A stretch long enough for all of the pattern: the jump goes to where the two end together. */
  lemma JumpFull(c: Chains, g: Search, candidate: nat, n: nat, best: Best, lowest: nat, back: nat, forward_: nat,
                 to: nat) returns (promised: nat)
    requires c.Valid() && g.Valid(c.src) && g.LookBack() == 0 && RepeatOk(c.src, g, Confirmed, n)
    requires c.lowLimit + back <= candidate < c.Index(g.ip) && c.lowLimit <= lowest
    requires 4 <= forward_ <= n <= back + forward_ && to == candidate + forward_ - n
    requires back > 0 ==> lowest + back <= candidate
    requires var m, b := candidate - c.lowLimit, c.src[g.ip];
             && m + forward_ <= g.iHigh && AllAre(c.src, m - back, m + forward_, b)
             && (m + forward_ < g.iHigh ==> c.src[m + forward_] != b)
    requires Tried(c.src, c.lowLimit, g, lowest, candidate, best.longest)
    ensures Known(c.src, c.lowLimit, g, lowest, to, 0, best, promised)
  {
    hide Tried, Beaten, HeadsOk, LinksOk, HashPtr;
    var m, src, low := candidate - c.lowLimit, c.src, c.lowLimit;
    promised := if to >= lowest then n else 0;
    if to >= lowest {
      StretchesAgree(src, g.ip, to - low, n, n, n, src[g.ip]);
      TriedStretch(src, low, g, lowest, m - back, m + forward_, n, candidate, to, best.longest,
                   Max(best.longest, n));
      StretchKey(src, low, g, to);
    } else {
      TriedLess(src, low, g, lowest, candidate, to, best.longest);
    }
  }

  /** The chain is followed from the first index of the stretch. */
  lemma JumpFirst(c: Chains, g: Search, candidate: nat, n: nat, longest: nat, b: Best, lowest: nat, back: nat,
                  forward_: nat, first: nat)
    requires c.Valid() && g.Valid(c.src) && g.LookBack() == 0 && RepeatOk(c.src, g, Confirmed, n)
    requires c.nextToUpdate == c.Index(g.ip) && lowest == LowestMatchIndex(c.lowLimit, c.Index(g.ip))
    requires c.lowLimit + back <= candidate < c.Index(g.ip) && first == candidate - back
    requires 4 <= forward_ && (n > back + forward_ || forward_ > n)
    requires back > 0 ==> lowest + back <= candidate
    requires longest <= b.longest && Min(back + forward_, n) <= b.longest
    requires var m, b := candidate - c.lowLimit, c.src[g.ip];
             && m + forward_ <= g.iHigh && AllAre(c.src, m - back, m + forward_, b)
             && (m + forward_ < g.iHigh ==> c.src[m + forward_] != b)
    requires Tried(c.src, c.lowLimit, g, lowest, candidate, longest)
    ensures c.chainTable.Length == MAXD
    ensures Known(c.src, c.lowLimit, g, lowest, first - c.Delta(first), 0, b, 0)
  {
    hide Tried, Beaten, HeadsOk, LinksOk, HashPtr, LinkOk;
    var m, src, low := candidate - c.lowLimit, c.src, c.lowLimit;
    c.DeltaRange(first);
    var d := c.Delta(first);
    if first >= lowest {
      TriedStretch(src, low, g, lowest, m - back, m + forward_, n, candidate, first - 1, longest, b.longest);
      StretchKey(src, low, g, first);
      c.LinkAt(first);
      TriedNext(src, low, g, lowest, first, 0, b.longest, d);
    } else {
      TriedLess(src, low, g, lowest, candidate, first - d, longest);
      TriedMore(src, low, g, lowest, first - d, longest, b.longest);
    }
  }

  /** Four bytes that repeat the byte at ip have the hash of the bytes at ip. */
  lemma StretchKey(src: seq<byte>, low: nat, g: Search, idx: nat)
    requires g.Valid(src) && low <= idx < g.ip + low && AllAre(src, idx - low, idx - low + 4, src[g.ip])
    requires AllAre(src, g.ip, g.ip + 4, src[g.ip])
    ensures Key(src, low, idx) == Key(src, low, g.ip + low)
  {
    hide HashPtr;
    SameHash(src, g.ip, idx - low);
  }

  /** chainSwap leads to the chain of bytes that agree. */
  lemma SwapOnChain(src: seq<byte>, low: nat, g: Search, lowest: nat, idx: nat, pos: nat, longest: nat)
    requires g.Valid(src) && g.LookBack() == 0 && low <= idx < g.ip + low
    requires pos + MINMATCH <= longest && Same(src, g.ip, idx - low, longest)
    ensures OnChain(src, low, g, lowest, idx, pos, longest)
  {
    hide HashPtr;
    var p, m := g.ip + pos, idx - low + pos;
    assert src[p] == src[m] && src[p + 1] == src[m + 1] && src[p + 2] == src[m + 2] && src[p + 3] == src[m + 3];
    SameHash(src, p, m);
  }

  /** To the next candidate, after the one at matchIndex has been compared: along another chain, through a
      pattern, or along the chain it was on. */
  method Follow(c: Chains, g: Search, matchIndex: nat, matchLength: nat, best: Best, chainPos: nat, repeat: Repeat,
                srcLength: nat, ghost lowest: nat)
    returns (over: bool, idx: nat, b: Best, pos: nat, rep: Repeat, length: nat, ghost promised: nat)
    requires c.Valid() && g.Valid(c.src) && best.Sound(c.src, g.iLow, g.ip, g.iHigh, g.had)
    requires c.nextToUpdate == c.Index(g.ip) && lowest == LowestMatchIndex(c.lowLimit, c.Index(g.ip)) <= matchIndex
    requires matchIndex + chainPos < c.Index(g.ip) && RepeatOk(c.src, g, repeat, srcLength)
    requires g.LookBack() == 0 ==> Same(c.src, g.ip, matchIndex - c.lowLimit, matchLength)
    requires Lossless(g) ==> && Tried(c.src, c.lowLimit, g, lowest, matchIndex - 1, best.longest)
                             && OnChain(c.src, c.lowLimit, g, lowest, matchIndex, chainPos, best.longest)
    ensures b.Sound(c.src, g.iLow, g.ip, g.iHigh, g.had) && best.longest <= b.longest
    ensures idx < matchIndex && idx + pos < c.Index(g.ip) && RepeatOk(c.src, g, rep, length)
    ensures Lossless(g) && over ==> Tried(c.src, c.lowLimit, g, lowest, lowest - 1, b.longest)
    ensures Lossless(g) && !over ==> Known(c.src, c.lowLimit, g, lowest, idx, pos, b, promised)
    ensures c.chainTable.Length == MAXD
    ensures !g.patternAnalysis && !g.chainSwap && chainPos == 0 ==>
              !over && pos == 0 && b == best && idx == matchIndex - c.Delta(matchIndex)
  {
    hide HeadsOk, LinksOk, LinkOk, Same, AllAre, HashPtr, Beaten, Key, Tried, Known, OnChain, RepeatOk, Around;
    over, idx, b, pos, rep, length, promised := false, matchIndex, best, chainPos, repeat, srcLength, 0;
    c.DeltaRange(matchIndex);
    if g.chainSwap && matchLength == best.longest && matchIndex + best.longest <= c.Index(g.ip) {
      var distance;
      distance, pos := BetterChain(c, matchIndex, best.longest, chainPos);
      if distance > 1 {
        c.DeltaRange(matchIndex + pos);
        // Here too the test for overflow never succeeds.
        assert distance <= matchIndex;
        SwapOnChain(c.src, c.lowLimit, g, lowest, matchIndex, pos, best.longest);
        idx := NextOnChain(c, g, lowest, matchIndex, pos, b);
        return;
      }
    }
    if g.patternAnalysis && c.Delta(matchIndex) == 1 && pos == 0 {
      if rep == Untested { rep, length := TestRepeat(c.src, g); }
      if && rep == Confirmed && matchIndex - 1 >= c.lowLimit
         && Read32Equal(c.src, g.ip, matchIndex - 1 - c.lowLimit) {
        over, idx, b, promised := PatternStep(c, g, matchIndex - 1, length, best, lowest);
        return;
      }
    }
    idx := NextOnChain(c, g, lowest, matchIndex, pos, b);
  }

  /** The next index on a chain. */
  method NextOnChain(c: Chains, g: Search, ghost lowest: nat, matchIndex: nat, pos: nat, ghost b: Best)
    returns (idx: nat)
    requires c.Valid() && g.Valid(c.src)
    requires c.nextToUpdate == c.Index(g.ip) && lowest == LowestMatchIndex(c.lowLimit, c.Index(g.ip)) <= matchIndex
    requires matchIndex + pos < c.Index(g.ip)
    requires Lossless(g) ==> && Tried(c.src, c.lowLimit, g, lowest, matchIndex - 1, b.longest)
                             && OnChain(c.src, c.lowLimit, g, lowest, matchIndex, pos, b.longest)
    ensures c.chainTable.Length == MAXD && idx == matchIndex - c.Delta(matchIndex + pos) < matchIndex
    ensures Lossless(g) ==> Known(c.src, c.lowLimit, g, lowest, idx, pos, b, 0)
  {
    hide HeadsOk, LinksOk, LinkOk, HashPtr, Beaten, Key, Tried, OnChain, Around;
    c.DeltaRange(matchIndex + pos);
    c.LinkAt(matchIndex + pos);
    idx := matchIndex - c.Delta(matchIndex + pos);
    if Lossless(g) {
      TriedNext(c.src, c.lowLimit, g, lowest, matchIndex, pos, b.longest, c.Delta(matchIndex + pos));
    }
  }

  /** The first t of the positions are beaten. */
  ghost predicate FirstBeaten(src: seq<byte>, low: nat, g: Search, ps: seq<nat>, t: nat, longest: nat)
    requires g.Valid(src)
  {
    forall k :: 0 <= k < t && k < |ps| && low <= ps[k] && !g.Skips(ps[k] - low) ==>
      Beaten(src, g, ps[k] - low, longest)
  }

  /** A search along one chain has come past t positions to an index. */
  ghost predicate Walked(c: Chains, g: Search, lowest: nat, ps: seq<nat>, t: nat, idx: int, longest: nat)
    requires g.Valid(c.src)
    reads c.chainTable
  {
    && c.chainTable.Length == MAXD && (forall k :: 0 <= k < MAXD ==> c.chainTable[..][k] > 0)
    && t <= |ps| && Walk(c.chainTable[..], idx, lowest) == ps[t..]
    && FirstBeaten(c.src, c.lowLimit, g, ps, t, longest)
  }

  lemma WalkedStart(c: Chains, g: Search, lowest: nat, longest: nat)
    requires c.Valid() && g.Valid(c.src) && c.nextToUpdate == c.Index(g.ip)
    requires lowest == LowestMatchIndex(c.lowLimit, c.Index(g.ip)) && c.hashTable.Length == HASHTABLE_SIZE
    ensures Walked(c, g, lowest, Positions(c.src, c.lowLimit, HashPtr(c.src, g.ip), lowest, c.Index(g.ip)), 0,
                   c.hashTable[HashPtr(c.src, g.ip)], longest)
  {
    hide HashPtr, Key, Walk, Positions, Beaten;
    var h := HashPtr(c.src, g.ip);
    ChainComplete(c.src, c.lowLimit, c.nextToUpdate, c.hashTable[..], c.chainTable[..], h, lowest);
  }

  lemma WalkedStep(c: Chains, g: Search, lowest: nat, ps: seq<nat>, t: nat, idx: nat, longest: nat, more: nat)
    requires g.Valid(c.src) && Walked(c, g, lowest, ps, t, idx, longest) && c.lowLimit <= lowest <= idx
    requires longest <= more && (!g.Skips(idx - c.lowLimit) ==> Beaten(c.src, g, idx - c.lowLimit, more))
    ensures Walked(c, g, lowest, ps, t + 1, idx - c.Delta(idx), more)
  {
    hide Beaten;
    var chain := c.chainTable[..];
    assert chain[idx % MAXD] == c.Delta(idx);
    assert Walk(chain, idx, lowest) == [idx] + Walk(chain, idx - c.Delta(idx), lowest);
    assert ps[t..][0] == idx && ps[t..][1..] == ps[t + 1..];
    forall k | 0 <= k < t + 1 && k < |ps| && c.lowLimit <= ps[k] && !g.Skips(ps[k] - c.lowLimit)
      ensures Beaten(c.src, g, ps[k] - c.lowLimit, more)
    {
      if k < t { BeatenMore(c.src, g, ps[k] - c.lowLimit, longest, more); }
    }
  }

  lemma WalkedEnd(c: Chains, g: Search, lowest: nat, ps: seq<nat>, t: nat, idx: int, longest: nat, attempts: nat)
    requires g.Valid(c.src) && Walked(c, g, lowest, ps, t, idx, longest)
    requires idx < lowest || t == attempts
    ensures FirstBeaten(c.src, c.lowLimit, g, ps, attempts, longest)
  {
    hide Beaten;
  }

  /** The search may go on until it has passed the lowest index: it cannot run out of attempts. */
  predicate Enough(attempts: nat, head: nat, lowest: nat) {
    attempts + lowest > head
  }

  /** LZ4HC_InsertAndGetWiderMatch over one segment: the longest match it finds around ip, if longer
      than asked for; its bytes agree, its distance fits an offset, and it keeps within the limits.
      Neither following another chain nor jumping through patterns loses a match: with enough
      attempts no position of the window has a longer one, and with fewer the nearest has not;
      without such shortcuts, that goes for as many positions as there are attempts. */
  method InsertAndGetWiderMatch(c: Chains, g: Search, attempts: nat) returns (best: Best)
    requires c.Valid() && g.Valid(c.src) && c.nextToUpdate <= c.Index(g.ip)
    modifies c`nextToUpdate, c.hashTable, c.chainTable
    ensures c.Valid() && c.nextToUpdate == c.Index(g.ip)
    ensures best.Sound(c.src, g.iLow, g.ip, g.iHigh, g.had)
    ensures c.hashTable.Length == HASHTABLE_SIZE
    ensures var head, lowest := c.hashTable[HashPtr(c.src, g.ip)], LowestMatchIndex(c.lowLimit, c.Index(g.ip));
            && (attempts > 0 && lowest <= head < c.Index(g.ip) && !g.Skips(head - c.lowLimit) ==>
                  Beaten(c.src, g, head - c.lowLimit, best.longest))
            && (Lossless(g) && Enough(attempts, head, lowest) ==>
                  forall m: nat :: lowest <= m + c.lowLimit && m < g.ip && !g.Skips(m) ==>
                    Beaten(c.src, g, m, best.longest))
            && (!g.patternAnalysis && !g.chainSwap ==>
                  FirstBeaten(c.src, c.lowLimit, g,
                              Positions(c.src, c.lowLimit, HashPtr(c.src, g.ip), lowest, c.Index(g.ip)),
                              attempts, best.longest))
  {
    hide HeadsOk, LinksOk, Same, AllAre, HashPtr, Beaten, Key, Tried, Known, OnChain, Around, Walked,
      FirstBeaten, Positions;
    c.Insert(g.ip);
    var ipIndex, nbAttempts: nat := c.Index(g.ip), attempts;
    var lowest := LowestMatchIndex(c.lowLimit, ipIndex);
    var matchIndex := FirstMatch(c, g, lowest);
    var chainPos: nat, srcLength: nat, repeat, over := 0, 0, Untested, false;
    best := Best(g.had, g.ip, g.ip);
    ghost var head, promised: nat, plain := matchIndex, 0, !g.patternAnalysis && !g.chainSwap;
    ghost var ps := Positions(c.src, c.lowLimit, HashPtr(c.src, g.ip), lowest, ipIndex);
    WalkedStart(c, g, lowest, best.longest);
    while !over && matchIndex >= lowest && nbAttempts > 0
      invariant matchIndex + chainPos < ipIndex && best.Sound(c.src, g.iLow, g.ip, g.iHigh, g.had)
      invariant RepeatOk(c.src, g, repeat, srcLength)
      invariant Enough(attempts, head, lowest) && !over ==> nbAttempts + lowest > matchIndex
      invariant || (matchIndex == head && nbAttempts == attempts && !over)
                || (head >= lowest && (!g.Skips(head - c.lowLimit) ==>
                                         Beaten(c.src, g, head - c.lowLimit, best.longest)))
      invariant Lossless(g) && over ==> Tried(c.src, c.lowLimit, g, lowest, lowest - 1, best.longest)
      invariant Lossless(g) && !over ==> Known(c.src, c.lowLimit, g, lowest, matchIndex, chainPos, best, promised)
      invariant plain ==> !over && chainPos == 0
      invariant plain ==> Walked(c, g, lowest, ps, attempts - nbAttempts, matchIndex, best.longest)
      decreases nbAttempts
      modifies {}
    {
      nbAttempts := nbAttempts - 1;
      var matchLength := 0;
      ghost var had := best;
      if !(g.favorDecSpeed && ipIndex - matchIndex < 8) {
        matchLength, best := Compare(c.src, g, matchIndex - c.lowLimit, best);
      } else {
        NoneAgree(c.src, g.ip, matchIndex - c.lowLimit);
      }
      if Lossless(g) {
        KnownHere(c.src, c.lowLimit, g, lowest, matchIndex, chainPos, had, promised, best);
      }
      BeatenStill(c.src, g, head - c.lowLimit, had.longest, best.longest);
      if plain {
        WalkedStep(c, g, lowest, ps, attempts - nbAttempts - 1, matchIndex, had.longest, best.longest);
      }
      had := best;
      over, matchIndex, best, chainPos, repeat, srcLength, promised :=
        Follow(c, g, matchIndex, matchLength, best, chainPos, repeat, srcLength, lowest);
      BeatenStill(c.src, g, head - c.lowLimit, had.longest, best.longest);
    }
    if plain { WalkedEnd(c, g, lowest, ps, attempts - nbAttempts, matchIndex, best.longest, attempts); }
    if Lossless(g) {
      if over {
        TriedAll(c.src, c.lowLimit, g, lowest, lowest - 1, best.longest);
      } else if matchIndex < lowest {
        KnownAll(c.src, c.lowLimit, g, lowest, matchIndex, chainPos, best, promised);
      }
    }
  }

  lemma BeatenStill(src: seq<byte>, g: Search, m: int, longest: nat, more: nat)
    requires g.Valid(src) && longest <= more
    ensures m >= 0 && Beaten(src, g, m, longest) ==> Beaten(src, g, m, more)
  {
  }

  method FirstMatch(c: Chains, g: Search, ghost lowest: nat) returns (matchIndex: nat)
    requires c.Valid() && g.Valid(c.src) && c.nextToUpdate == c.Index(g.ip) && c.lowLimit <= lowest
    ensures c.hashTable.Length == HASHTABLE_SIZE && matchIndex == c.hashTable[HashPtr(c.src, g.ip)] < c.Index(g.ip)
    ensures Known(c.src, c.lowLimit, g, lowest, matchIndex, 0, Best(g.had, g.ip, g.ip), 0)
  {
    hide HashPtr, Beaten, Key, Around;
    var h := HashPtr(c.src, g.ip);
    matchIndex := c.hashTable[h];
    assert HeadOk(c.src, c.lowLimit, c.nextToUpdate, h, c.hashTable[..][h]);
    AtIp(c.src, c.lowLimit, g.ip);
    forall m: nat | lowest <= m + c.lowLimit && matchIndex < m + c.lowLimit && m < g.ip && !g.Skips(m)
      ensures Beaten(c.src, g, m, g.had)
    {
      OtherKey(c.src, c.lowLimit, g, m, 0, g.had);
    }
  }

  lemma AtIp(src: seq<byte>, low: nat, ip: nat)
    requires ip + 4 <= |src|
    ensures Key(src, low, ip + low) == HashPtr(src, ip)
  {
    hide HashPtr;
  }
}
