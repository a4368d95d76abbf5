/** LZ4HC_compress_optimal: a table of the cheapest ways to reach each position, walked back and
    turned round in place, then encoded.  Whatever the prices are, the steps found tile the
    positions, and each match among them repeats the source. */
module Lz4HcOptimal {
  import opened Lz4Format
  import opened Lz4Sequences
  import opened Lz4Emit
  import opened Lz4Parse
  import opened Lz4Compressor
  import opened Lz4HcChain
  import opened Lz4HcMatch
  import Lz4Decoder

  const OPT_NUM := 0x1000
  const TRAILING_LITERALS := 3

  // -------------------------------------------------------------------- prices

  /** LZ4HC_literalsPrice. */
  function LiteralsPrice(litlen: nat): nat {
    litlen + if litlen >= 15 then 1 + (litlen - 15) / 255 else 0
  }

  /** LZ4HC_sequencePrice. */
  function SequencePrice(litlen: nat, mlen: nat): nat {
    1 + 2 + LiteralsPrice(litlen) + if mlen >= 19 then 1 + (mlen - 19) / 255 else 0
  }

  /** The price of a sequence is the number of bytes it takes. */
  lemma PriceIsSize(s: Sequence)
    requires Writable(s)
    ensures SequencePrice(|s.lits|, s.matchLen) == |SeqBytes(s)|
  {
    assert |ExtOf(|s.lits|)| == if |s.lits| >= 15 then 1 + (|s.lits| - 15) / 255 else 0;
    assert |ExtOf(s.matchLen - MINMATCH)| == if s.matchLen >= 19 then 1 + (s.matchLen - 19) / 255 else 0;
  }

  // --------------------------------------------------------------------- steps

  /** LZ4HC_optimal_t: how a position is reached, by a literal (mlen 1) or a match. */
  datatype Opt = Opt(price: int, off: nat, mlen: nat, litlen: nat)

  /** A step from position at on: one literal, or a match that the block may hold there. */
  predicate Leads(j: Job, at: nat, off: nat, mlen: nat) {
    mlen == 1 || (MINMATCH <= mlen && 1 <= off <= at && Found(j, at, at - off, mlen) && at + mlen <= j.Matchlimit())
  }

  /** The entry for position ip + pos is a step that ends there. */
  predicate Arrives(j: Job, ip: nat, e: Opt, pos: nat) {
    e.mlen == 1 || (MINMATCH <= e.mlen <= pos && Leads(j, ip + pos - e.mlen, e.off, e.mlen))
  }

  ghost predicate Filled(j: Job, ip: nat, o: seq<Opt>, n: nat) {
    n <= |o| && forall pos :: 0 <= pos < n ==> Arrives(j, ip, o[pos], pos)
  }

  /** The steps from pos on, taken forward, reach end without gap or overlap; all but the last one
      end at cur or before. */
  predicate Tiles(j: Job, ip: nat, o: seq<Opt>, pos: nat, cur: nat, end: nat)
    decreases end - pos
  {
    pos == end ||
    (pos <= cur < end && pos < |o| && pos < pos + o[pos].mlen <= end && Leads(j, ip + pos, o[pos].off, o[pos].mlen)
     && Tiles(j, ip, o, pos + o[pos].mlen, cur, end))
  }

  lemma {:induction false} TilesKept(j: Job, ip: nat, o: seq<Opt>, o': seq<Opt>, pos: nat, cur: nat, end: nat)
    requires Tiles(j, ip, o, pos, cur, end) && |o| == |o'| && forall k :: pos <= k < |o| ==> o[k] == o'[k]
    ensures Tiles(j, ip, o', pos, cur, end)
    decreases end - pos
  {
    hide Leads;
    if pos != end { TilesKept(j, ip, o, o', pos + o[pos].mlen, cur, end); }
  }

  /** The entries of the first positions stay what the first match made them: literals are never cheaper
      than a match of four bytes. */
  predicate Start(o: seq<Opt>, llen: nat) {
    && |o| > MINMATCH
    && (forall k :: 1 <= k < MINMATCH ==> o[k].price == LiteralsPrice(llen + k) && o[k].litlen == llen + k)
    && o[MINMATCH].mlen == MINMATCH && o[MINMATCH].price == SequencePrice(llen, MINMATCH)
  }

  lemma StartKept(o: seq<Opt>, o': seq<Opt>, llen: nat)
    requires Start(o, llen) && |o'| == |o| && forall k :: 0 <= k <= MINMATCH ==> o'[k] == o[k]
    ensures Start(o', llen)
  {
  }

  /** The steps from pos on are literals. */
  predicate AllLiterals(o: seq<Opt>, pos: nat, end: nat)
    decreases end - pos
  {
    pos >= end || (pos < |o| && o[pos].mlen == 1 && AllLiterals(o, pos + 1, end))
  }

  lemma {:induction false} LiteralsKept(o: seq<Opt>, o': seq<Opt>, pos: nat, end: nat)
    requires |o| == |o'| && forall k :: pos <= k < |o| ==> o[k] == o'[k]
    ensures AllLiterals(o, pos, end) == AllLiterals(o', pos, end)
    decreases end - pos
  {
    if pos < end { LiteralsKept(o, o', pos + 1, end); }
  }

  /** The reverse traversal.  The entries up to cur tell how each position is reached; mlen and off
      are a step from cur on.  Afterwards the entries tell which step to take next. */
  method ReverseTraversal(j: Job, ip: nat, opt: array<Opt>, cur: nat, mlen: nat, off: nat)
    requires Filled(j, ip, opt[..], cur + 1) && Leads(j, ip + cur, off, mlen)
    modifies opt
    ensures Tiles(j, ip, opt[..], 0, cur, cur + mlen)
    ensures mlen >= MINMATCH || (cur >= MINMATCH && old(opt[MINMATCH].mlen) >= MINMATCH) ==>
              !AllLiterals(opt[..], 0, cur + mlen)
  {
    hide Leads, Found, AllLiterals;
    var candidatePos, selectedLength, selectedOffset := cur, mlen, off;
    ghost var end := cur + mlen;
    ghost var fourth := cur >= MINMATCH && opt[MINMATCH].mlen >= MINMATCH;
    assert mlen >= 1 by { LeadsForward(j, ip + cur, off, mlen); }
    while true
      invariant 0 <= candidatePos <= cur < end && selectedLength >= 1 && candidatePos + selectedLength <= end
      invariant Filled(j, ip, opt[..], candidatePos + 1)
      invariant Leads(j, ip + candidatePos, selectedOffset, selectedLength)
      invariant Tiles(j, ip, opt[..], candidatePos + selectedLength, cur, end)
      invariant forall k :: 0 <= k <= candidatePos ==> opt[k] == old(opt[k])
      invariant if mlen >= MINMATCH
                then if candidatePos == cur then selectedLength == mlen
                     else !AllLiterals(opt[..], candidatePos + 1, end)
                else fourth && selectedLength == 1 && AllLiterals(opt[..], candidatePos + 1, end) ==>
                       candidatePos >= MINMATCH
      decreases candidatePos
    {
      ghost var o := opt[..];
      ArrivesLeads(j, ip, o[candidatePos], candidatePos);
      var nextLength, nextOffset := opt[candidatePos].mlen, opt[candidatePos].off;
      opt[candidatePos] := opt[candidatePos].(mlen := selectedLength, off := selectedOffset);
      TilesKept(j, ip, o, opt[..], candidatePos + selectedLength, cur, end);
      assert Tiles(j, ip, opt[..], candidatePos, cur, end);
      LiteralsKept(o, opt[..], candidatePos + 1, end);
      LiteralsStep(opt[..], candidatePos, end);
      selectedLength, selectedOffset := nextLength, nextOffset;
      if nextLength > candidatePos { return; }
      if AllLiterals(opt[..], candidatePos - nextLength + 1, end) {
        LiteralsEarlier(opt[..], candidatePos - nextLength + 1, candidatePos, end);
      }
      candidatePos := candidatePos - nextLength;
    }
  }

  lemma {:induction false} LiteralsEarlier(o: seq<Opt>, a: nat, b: nat, end: nat)
    requires a <= b <= end && AllLiterals(o, a, end)
    ensures AllLiterals(o, b, end)
    decreases b - a
  {
    if a < b { LiteralsEarlier(o, a + 1, b, end); }
  }

  lemma LiteralsStep(o: seq<Opt>, pos: nat, end: nat)
    requires pos < end && pos < |o|
    ensures AllLiterals(o, pos, end) <==> o[pos].mlen == 1 && AllLiterals(o, pos + 1, end)
  {
  }

  lemma ArrivesLeads(j: Job, ip: nat, e: Opt, pos: nat)
    requires Arrives(j, ip, e, pos)
    ensures e.mlen >= 1 && (pos > 0 ==> e.mlen <= pos)
    ensures e.mlen <= pos ==> Leads(j, ip + pos - e.mlen, e.off, e.mlen)
  {
  }

  lemma LeadsForward(j: Job, at: nat, off: nat, mlen: nat)
    requires Leads(j, at, off, mlen)
    ensures mlen >= 1
  {
  }

  // --------------------------------------------------------------- the price table

  datatype HcMatch = HcMatch(len: nat, off: nat)

  /** How the parser searches at a position. */
  function At(j: Job, ip: nat, minLen: nat, favorDecSpeed: bool): Search
    requires j.Matchlimit() >= 0
  {
    Search(ip, ip, j.Matchlimit(), minLen, true, true, favorDecSpeed)
  }

  /** No match that is looked for is longer than this when the answer is m. */
  function Reach(m: HcMatch, minLen: nat, favorDecSpeed: bool): nat {
    if m.len == 0 then minLen else if favorDecSpeed && m.len == 18 then 36 else m.len
  }

  /** LZ4HC_FindLongerMatch: no match, or one that the block may hold at ip: the longest of the window when
      there are attempts enough, at least as long as the nearest otherwise. */
  method FindLongerMatch(j: Job, c: Chains, ip: nat, minLen: nat, nbSearches: nat, favorDecSpeed: bool)
    returns (m: HcMatch)
    requires j.Valid() && j.low == 0 && c.src == j.src && c.Valid() && c.nextToUpdate <= c.Index(ip)
    requires 1 <= minLen && j.s0 <= ip < j.MflimitPlusOne() && ip + minLen <= j.Matchlimit()
    modifies c`nextToUpdate, c.hashTable, c.chainTable
    ensures c.Valid() && c.nextToUpdate == c.Index(ip)
    ensures m.len != 0 ==> m.len >= MINMATCH && Leads(j, ip, m.off, m.len)
    ensures m.len != 0 && !favorDecSpeed ==> m.len > minLen
    ensures c.hashTable.Length == HASHTABLE_SIZE
    ensures var g, reach := At(j, ip, minLen, favorDecSpeed), Reach(m, minLen, favorDecSpeed);
            var head, lowest := c.hashTable[HashPtr(c.src, ip)], LowestMatchIndex(c.lowLimit, c.Index(ip));
            && (nbSearches > 0 && lowest <= head < c.Index(ip) && !g.Skips(head - c.lowLimit) ==>
                  Beaten(c.src, g, head - c.lowLimit, reach))
            && (Enough(nbSearches, head, lowest) ==>
                  forall q: nat :: lowest <= q + c.lowLimit && q < ip && !g.Skips(q) ==> Beaten(c.src, g, q, reach))
  {
    hide Same, HashPtr, Beaten, HeadsOk, LinksOk;
    var g := At(j, ip, minLen, favorDecSpeed);
    var best := InsertAndGetWiderMatch(c, g, nbSearches);
    if best.longest <= minLen { return HcMatch(0, 0); }
    var matchLength := best.longest;
    if favorDecSpeed && 18 < matchLength <= 36 { matchLength := 18; }
    SameShorter(j.src, best.start, best.match_, best.longest, matchLength);
    m := HcMatch(matchLength, best.start - best.match_);
    BeatenReach(c, g, best.longest, Reach(m, minLen, favorDecSpeed));
  }

  lemma BeatenReach(c: Chains, g: Search, longest: nat, reach: nat)
    requires g.Valid(c.src) && longest <= reach
    ensures forall m: nat :: Beaten(c.src, g, m, longest) ==> Beaten(c.src, g, m, reach)
  {
  }

  lemma SameShorter(src: seq<byte>, p: nat, m: nat, len: nat, shorter: nat)
    requires Same(src, p, m, len) && shorter <= len
    ensures Same(src, p, m, shorter)
  {
  }

  lemma LeadsShorter(j: Job, at: nat, off: nat, mlen: nat, shorter: nat)
    requires Leads(j, at, off, mlen) && MINMATCH <= shorter <= mlen
    ensures Leads(j, at, off, shorter)
  {
  }

  lemma FilledMore(j: Job, ip: nat, o: seq<Opt>, o': seq<Opt>, n: nat, pos: nat, n': nat)
    requires Filled(j, ip, o, n) && |o'| == |o| && pos < |o| && (n' == n || (n' == n + 1 && pos == n))
    requires forall k :: 0 <= k < |o| && k != pos ==> o'[k] == o[k]
    requires Arrives(j, ip, o'[pos], pos)
    ensures Filled(j, ip, o', n')
  {
    hide Arrives;
  }

  method SetEntry(j: Job, ip: nat, opt: array<Opt>, pos: nat, e: Opt, ghost n: nat, ghost n': nat)
    requires Filled(j, ip, opt[..], n) && pos < opt.Length && (n' == n || (n' == n + 1 && pos == n))
    requires Arrives(j, ip, e, pos)
    modifies opt
    ensures Filled(j, ip, opt[..], n') && opt[pos] == e
    ensures forall k :: 0 <= k < opt.Length && k != pos ==> opt[k] == old(opt[k])
  {
    hide Arrives, Filled;
    ghost var o := opt[..];
    opt[pos] := e;
    FilledMore(j, ip, o, opt[..], n, pos, n');
  }

  /** The literals that follow the last position. */
  method TrailingLiterals(j: Job, ip: nat, opt: array<Opt>, last: nat)
    requires Filled(j, ip, opt[..], last + 1) && last + TRAILING_LITERALS < opt.Length
    modifies opt
    ensures Filled(j, ip, opt[..], last + TRAILING_LITERALS + 1)
    ensures forall k :: 0 <= k <= last ==> opt[k] == old(opt[k])
    ensures forall k :: 1 <= k <= TRAILING_LITERALS ==>
              opt[last + k] == Opt(old(opt[last].price) + LiteralsPrice(k), 0, 1, k)
  {
    hide Filled, LiteralsPrice;
    var addLit := 1;
    while addLit <= TRAILING_LITERALS
      invariant 1 <= addLit <= TRAILING_LITERALS + 1 && Filled(j, ip, opt[..], last + addLit)
      invariant forall k :: 0 <= k <= last ==> opt[k] == old(opt[k])
      invariant forall k :: 1 <= k < addLit ==> opt[last + k] == Opt(opt[last].price + LiteralsPrice(k), 0, 1, k)
    {
      var e := Opt(opt[last].price + LiteralsPrice(addLit), 0, 1, addLit);
      SetEntry(j, ip, opt, last + addLit, e, last + addLit, last + addLit + 1);
      addLit := addLit + 1;
    }
  }

  /** The prices of the first positions, by literals and by the first match. */
  method FirstPrices(j: Job, ip: nat, opt: array<Opt>, llen: nat, m: HcMatch) returns (last: nat)
    requires MINMATCH <= m.len < OPT_NUM && Leads(j, ip, m.off, m.len) && opt.Length == OPT_NUM + TRAILING_LITERALS
    modifies opt
    ensures last == m.len && Filled(j, ip, opt[..], last + TRAILING_LITERALS + 1) && Start(opt[..], llen)
    ensures forall k :: MINMATCH <= k <= m.len ==> opt[k] == Opt(SequencePrice(llen, k), m.off, k, llen)
  {
    hide Filled, Leads, LiteralsPrice, SequencePrice;
    FilledNone(j, ip, opt[..]);
    var rPos := 0;
    while rPos < MINMATCH
      invariant rPos <= MINMATCH && Filled(j, ip, opt[..], rPos)
      invariant forall k :: 0 <= k < rPos ==> opt[k] == Opt(LiteralsPrice(llen + k), 0, 1, llen + k)
    {
      SetEntry(j, ip, opt, rPos, Opt(LiteralsPrice(llen + rPos), 0, 1, llen + rPos), rPos, rPos + 1);
      rPos := rPos + 1;
    }
    var mlen := MINMATCH;
    while mlen <= m.len
      invariant MINMATCH <= mlen <= m.len + 1 && Filled(j, ip, opt[..], mlen)
      invariant forall k :: 0 <= k < MINMATCH ==> opt[k] == Opt(LiteralsPrice(llen + k), 0, 1, llen + k)
      invariant forall k :: MINMATCH <= k < mlen ==> opt[k] == Opt(SequencePrice(llen, k), m.off, k, llen)
    {
      LeadsShorter(j, ip, m.off, m.len, mlen);
      SetEntry(j, ip, opt, mlen, Opt(SequencePrice(llen, mlen), m.off, mlen, llen), mlen, mlen + 1);
      mlen := mlen + 1;
    }
    last := m.len;
    TrailingLiterals(j, ip, opt, last);
  }

  lemma FilledNone(j: Job, ip: nat, o: seq<Opt>)
    ensures Filled(j, ip, o, 0)
  {
  }

  /** Literals up to the end of a match of four bytes at the start are not cheaper than the match. */
  lemma NotCheaper(o: seq<Opt>, llen: nat, cur: nat, litlen: nat)
    requires Start(o, llen) && 1 <= cur && 1 <= litlen < MINMATCH && cur + litlen < |o|
    requires o[cur].price - LiteralsPrice(o[cur].litlen) + LiteralsPrice(o[cur].litlen + litlen) < o[cur + litlen].price
    ensures cur + litlen > MINMATCH
  {
  }

  /** The entry for k literals more. */
  function LiteralStep(e: Opt, k: nat): Opt {
    Opt(e.price - LiteralsPrice(e.litlen) + LiteralsPrice(e.litlen + k), 0, 1, e.litlen + k)
  }

  /** Of an entry and another way to the same position, the cheaper one, the old one if they cost the same. */
  predicate Cheaper(before: Opt, other: Opt, after: Opt) {
    after == if other.price < before.price then other else before
  }

  /** Literals before a match at cur, where they are cheaper. */
  method LiteralPrices(j: Job, ip: nat, opt: array<Opt>, cur: nat, last: nat, ghost llen: nat)
    requires Start(opt[..], llen) && 1 <= cur < last && last + TRAILING_LITERALS < opt.Length
    requires Filled(j, ip, opt[..], last + TRAILING_LITERALS + 1)
    modifies opt
    ensures Filled(j, ip, opt[..], last + TRAILING_LITERALS + 1) && Start(opt[..], llen)
    ensures forall k :: 0 <= k < opt.Length && !(cur < k < cur + MINMATCH) ==> opt[k] == old(opt[k])
    ensures forall k :: 1 <= k < MINMATCH ==> Cheaper(old(opt[cur + k]), LiteralStep(old(opt[cur]), k), opt[cur + k])
  {
    hide Filled, Start, LiteralsPrice;
    var baseLitlen, litlen := opt[cur].litlen, 1;
    while litlen < MINMATCH
      invariant 1 <= litlen <= MINMATCH && Filled(j, ip, opt[..], last + TRAILING_LITERALS + 1)
      invariant Start(opt[..], llen) && opt[cur].litlen == baseLitlen
      invariant forall k :: 0 <= k < opt.Length && !(cur < k < cur + litlen) ==> opt[k] == old(opt[k])
      invariant forall k :: 1 <= k < litlen ==> Cheaper(old(opt[cur + k]), LiteralStep(old(opt[cur]), k), opt[cur + k])
    {
      var price := opt[cur].price - LiteralsPrice(baseLitlen) + LiteralsPrice(baseLitlen + litlen);
      if price < opt[cur + litlen].price {
        NotCheaper(opt[..], llen, cur, litlen);
        ghost var o := opt[..];
        SetEntry(j, ip, opt, cur + litlen, Opt(price, 0, 1, baseLitlen + litlen),
                 last + TRAILING_LITERALS + 1, last + TRAILING_LITERALS + 1);
        StartKept(o, opt[..], llen);
      }
      litlen := litlen + 1;
    }
  }

  /** The entry for a match of ml bytes at cur, with the literals before it: what the way to the start of
      these literals costs, and the sequence. */
  function MatchStep(o: seq<Opt>, cur: nat, off: nat, ml: nat): Opt
    requires cur < |o|
  {
    var ll := if o[cur].mlen == 1 then o[cur].litlen else 0;
    var way := if ll > cur || (ll == cur && o[cur].mlen == 1) then 0 else o[cur - ll].price;
    Opt(way + SequencePrice(ll, ml), off, ml, ll)
  }

  method PriceAt(opt: array<Opt>, cur: nat, ml: nat) returns (price: int, ll: nat)
    requires cur < opt.Length
    ensures forall off :: MatchStep(opt[..], cur, off, ml) == Opt(price, off, ml, ll)
  {
    if opt[cur].mlen == 1 {
      ll := opt[cur].litlen;
      price := (if cur > ll then opt[cur - ll].price else 0) + SequencePrice(ll, ml);
    } else {
      ll := 0;
      price := opt[cur].price + SequencePrice(0, ml);
    }
  }

  lemma SameStep(o: seq<Opt>, o': seq<Opt>, cur: nat, off: nat, ml: nat)
    requires cur < |o| == |o'| && forall k :: 0 <= k <= cur ==> o[k] == o'[k]
    ensures MatchStep(o, cur, off, ml) == MatchStep(o', cur, off, ml)
  {
  }

  /** Another way to a position is taken if it is the first to get there or costs no more, and one byte less
      when decompression speed comes first. */
  predicate Taken(before: Opt, other: Opt, first: bool, favorDecSpeed: bool) {
    first || other.price <= before.price - (if favorDecSpeed then 1 else 0)
  }

  predicate Replaced(before: Opt, other: Opt, after: Opt, first: bool, favorDecSpeed: bool) {
    after == if Taken(before, other, first, favorDecSpeed) then other else before
  }

  /** The positions that a match at cur reaches, where it is cheaper or the first to get there. */
  method MatchPrices(j: Job, ip: nat, opt: array<Opt>, cur: nat, last0: nat, m: HcMatch, favorDecSpeed: bool)
    returns (last: nat)
    requires 1 <= cur < last0 && opt.Length == OPT_NUM + TRAILING_LITERALS && last0 < OPT_NUM
    requires Filled(j, ip, opt[..], last0 + TRAILING_LITERALS + 1)
    requires MINMATCH <= m.len && cur + m.len < OPT_NUM && Leads(j, ip + cur, m.off, m.len)
    modifies opt
    ensures last == last0 || last == cur + m.len
    ensures last0 <= last < OPT_NUM && Filled(j, ip, opt[..], last + 1)
    ensures forall k :: 0 <= k < opt.Length && !(cur + MINMATCH <= k <= cur + m.len) ==> opt[k] == old(opt[k])
    ensures forall ml :: MINMATCH <= ml <= m.len ==>
              Replaced(old(opt[cur + ml]), MatchStep(old(opt[..]), cur, m.off, ml), opt[cur + ml],
                       cur + ml > last0 + TRAILING_LITERALS, favorDecSpeed)
    ensures last == if cur + m.len > last0 && Taken(old(opt[cur + m.len]), MatchStep(old(opt[..]), cur, m.off, m.len),
                                cur + m.len > last0 + TRAILING_LITERALS, favorDecSpeed)
                    then cur + m.len else last0
  {
    hide Filled, Leads, MatchStep;
    ghost var o := opt[..];
    last := last0;
    ghost var n := last0 + TRAILING_LITERALS + 1;
    var ml := MINMATCH;
    while ml <= m.len
      invariant MINMATCH <= ml <= m.len + 1 && last0 + TRAILING_LITERALS + 1 <= n && cur + ml <= n
      invariant n == last0 + TRAILING_LITERALS + 1 || n == cur + ml
      invariant last == (if ml <= m.len then last0 else last) && (last == last0 || last == cur + m.len) && last0 <= last
      invariant ml > m.len && n == cur + ml && n > last0 + TRAILING_LITERALS + 1 ==> last == cur + m.len
      invariant Filled(j, ip, opt[..], n)
      invariant forall k :: 0 <= k < opt.Length && !(cur + MINMATCH <= k < cur + ml) ==> opt[k] == o[k]
      invariant forall k :: MINMATCH <= k < ml ==>
                  Replaced(o[cur + k], MatchStep(o, cur, m.off, k), opt[cur + k], cur + k > last0 + TRAILING_LITERALS,
                           favorDecSpeed)
      invariant ml > m.len && cur + m.len > last0 ==>
                  (last == cur + m.len <==> Taken(o[cur + m.len], MatchStep(o, cur, m.off, m.len),
                                                  cur + m.len > last0 + TRAILING_LITERALS, favorDecSpeed))
      invariant cur + m.len <= last0 ==> last == last0
    {
      var pos := cur + ml;
      var price, ll := PriceAt(opt, cur, ml);
      SameStep(o, opt[..], cur, m.off, ml);
      if pos > last + TRAILING_LITERALS || price <= opt[pos].price - (if favorDecSpeed then 1 else 0) {
        if ml == m.len && last < pos { last := pos; }
        LeadsShorter(j, ip + cur, m.off, m.len, ml);
        SetEntry(j, ip, opt, pos, Opt(price, m.off, ml, ll), n, if pos == n then n + 1 else n);
        if pos == n { n := n + 1; }
      }
      ml := ml + 1;
    }
    FilledLess(j, ip, opt[..], n, last + 1);
  }

  lemma FilledLess(j: Job, ip: nat, o: seq<Opt>, n: nat, fewer: nat)
    requires Filled(j, ip, o, n) && fewer <= n
    ensures Filled(j, ip, o, fewer)
  {
    hide Arrives;
  }

  /** Looks for matches at the positions that the first match covers, and further.  The answer is a
      last step, from cur on: either one of the table that reaches last, or a match that is taken
      at once because it is long. */
  method Explore(j: Job, c: Chains, opt: array<Opt>, ip: nat, last0: nat, nbSearches: nat, sufficient: nat,
                 fullUpdate: bool, favorDecSpeed: bool, ghost llen: nat)
    returns (cur: nat, last: nat, mlen: nat, off: nat)
    requires j.Valid() && j.low == 0 && c.src == j.src && c.Valid() && c.nextToUpdate <= c.Index(ip)
    requires j.s0 <= ip && opt.Length == OPT_NUM + TRAILING_LITERALS && MINMATCH <= last0 < OPT_NUM
    requires Filled(j, ip, opt[..], last0 + TRAILING_LITERALS + 1) && ip + last0 <= j.Matchlimit()
    requires Start(opt[..], llen)
    modifies opt, c`nextToUpdate, c.hashTable, c.chainTable
    ensures c.Valid() && c.nextToUpdate <= c.Index(ip + cur + mlen)
    ensures Filled(j, ip, opt[..], cur + 1) && Leads(j, ip + cur, off, mlen) && mlen >= 1
    ensures mlen >= MINMATCH || (cur >= MINMATCH && opt[MINMATCH].mlen >= MINMATCH)
    ensures cur < last <= cur + mlen && (last == cur + mlen || last == cur + 1) && ip + cur + mlen <= j.Matchlimit()
  {
    hide Filled, Leads, Arrives, Start, HashPtr, Beaten, HeadsOk, LinksOk;
    cur, last := 1, last0;
    while cur < last
      invariant 1 <= cur <= last < OPT_NUM && MINMATCH <= last && ip + last <= j.Matchlimit() && Start(opt[..], llen)
      invariant Filled(j, ip, opt[..], last + TRAILING_LITERALS + 1)
      invariant c.Valid() && c.nextToUpdate <= c.Index(ip + cur)
      decreases OPT_NUM - cur
    {
      if ip + cur >= j.MflimitPlusOne() { break; }
      if opt[cur + 1].price <= opt[cur].price
         && (fullUpdate ==> opt[cur + MINMATCH].price < opt[cur].price + 3) {
        cur := cur + 1;
        continue;
      }
      var least := if fullUpdate then MINMATCH - 1 else last - cur;
      var m := FindLongerMatch(j, c, ip + cur, least, nbSearches, favorDecSpeed);
      if m.len == 0 {
        cur := cur + 1;
        continue;
      }
      LeadsWithin(j, ip + cur, m.off, m.len);
      if m.len > sufficient || m.len + cur >= OPT_NUM {
        FilledLess(j, ip, opt[..], last + TRAILING_LITERALS + 1, cur + 1);
        return cur, cur + 1, m.len, m.off;
      }
      LiteralPrices(j, ip, opt, cur, last, llen);
      ghost var o := opt[..];
      last := MatchPrices(j, ip, opt, cur, last, m, favorDecSpeed);
      TrailingLiterals(j, ip, opt, last);
      StartKept(o, opt[..], llen);
      cur := cur + 1;
    }
    mlen, off := opt[last].mlen, opt[last].off;
    StartMatch(opt[..], llen);
    FilledAt(j, ip, opt[..], last + TRAILING_LITERALS + 1, last);
    ArrivesLeads(j, ip, opt[last], last);
    cur := last - mlen;
    FilledLess(j, ip, opt[..], last + TRAILING_LITERALS + 1, cur + 1);
  }

  lemma StartMatch(o: seq<Opt>, llen: nat)
    requires Start(o, llen)
    ensures |o| > MINMATCH && o[MINMATCH].mlen == MINMATCH
  {
  }

  lemma FilledAt(j: Job, ip: nat, o: seq<Opt>, n: nat, pos: nat)
    requires Filled(j, ip, o, n) && pos < n
    ensures Arrives(j, ip, o[pos], pos)
  {
  }

  lemma LeadsWithin(j: Job, at: nat, off: nat, mlen: nat)
    requires Leads(j, at, off, mlen) && mlen >= MINMATCH
    ensures at + mlen <= j.Matchlimit() && 1 <= off <= at
  {
  }

  // ------------------------------------------------------------------- encoding

  /** The match bits of the token and the rest of the match length. */
  method EmitLengthPairs(dest: array<byte>, token: nat, op0: nat, mc: nat) returns (op: nat)
    requires token < op0 && op0 + |ExtOf(mc)| <= dest.Length && dest[token] % 16 == 0
    modifies dest
    ensures op == op0 + |ExtOf(mc)| && dest[op0..op] == ExtOf(mc)
    ensures dest[token] == old(dest[token]) + Nibble(mc)
    ensures forall k :: 0 <= k < op0 && k != token ==> dest[k] == old(dest[k])
  {
    op := op0;
    if mc < 15 {
      dest[token] := dest[token] + mc;
    } else {
      dest[token] := dest[token] + 15;
      op := EmitPairs(dest, op0, mc - 15);
    }
  }

  /** The length bytes, two of value 255 at a time. */
  method EmitPairs(dest: array<byte>, op0: nat, length0: nat) returns (op: nat)
    requires op0 + length0 / 255 + 1 <= dest.Length
    modifies dest
    ensures op == op0 + length0 / 255 + 1 && dest[op0..op] == ExtOf(length0 + 15)
    ensures forall k :: 0 <= k < op0 ==> dest[k] == old(dest[k])
  {
    var length := length0;
    op := op0;
    while length >= 510
      invariant op0 <= op && 0 <= length && length + 255 * (op - op0) == length0
      invariant forall k :: op0 <= k < op ==> dest[k] == 255
      invariant forall k :: 0 <= k < op0 ==> dest[k] == old(dest[k])
    {
      dest[op], dest[op + 1] := 255, 255;
      op, length := op + 2, length - 510;
    }
    if length >= 255 {
      dest[op] := 255;
      op, length := op + 1, length - 255;
    }
    dest[op] := length;
    op := op + 1;
    ExtIs(length0, dest[op0..op]);
  }

  /** What the two checks of a sequence ask for is there when the budget is that of the bound. */
  lemma ChecksPass(op: nat, a: nat, ll: nat, mc: nat, n: nat)
    requires 255 * op <= 256 * a && a + ll + mc + 9 <= n
    ensures op + 1 + ll / 255 + ll + 8 <= CompressBound(n)
    ensures op + 1 + (ll + 240) / 255 + ll + 8 <= CompressBound(n)
    ensures op + 1 + (ll + 240) / 255 + ll + 2 + mc / 255 + 6 <= CompressBound(n)
  {
    assert (ll + 240) / 255 <= ll / 255 + 1;
    assert op <= a + a / 255;
  }

  /** Token, literals and offset; the match bits of the token stay 0. */
  method EncodeLiterals(j: Job, dest: array<byte>, op0: nat, anchor: nat, ip: nat, off: nat, limit: Limit)
    returns (ok: bool, op: nat)
    requires j.Valid() && j.s0 <= anchor <= ip && ip < j.MflimitPlusOne() && 1 <= off <= DISTANCE_MAX
    requires || op0 + 1 + (ip - anchor + 240) / 255 + (ip - anchor) + 8 <= dest.Length
             || (limit.Limited? && limit.max <= dest.Length)
    modifies dest
    ensures forall k :: 0 <= k < op0 && k < dest.Length ==> dest[k] == old(dest[k])
    ensures !ok ==> limit.Limited? && op0 + 1 + (ip - anchor) / 255 + (ip - anchor) + 8 > limit.max
    ensures ok ==> && op == op0 + 1 + |ExtOf(ip - anchor)| + (ip - anchor) + 2 <= dest.Length
                   && dest[op0..op - 2] == LitBytes(16 * Nibble(ip - anchor), j.src[anchor..ip])
                   && dest[op - 2..op] == LE16Bytes(off)
  {
    var length := ip - anchor;
    op, ok := op0 + 1, true;
    if limit.Limited? && op + length / 255 + length + (2 + 1 + LASTLITERALS) > limit.max { return false, op; }
    op := EmitLiterals(dest, op0, j.src, anchor, length);
    ghost var mid, lits := op, dest[op0..op];
    op := EmitOffset(dest, op, off);
    assert dest[op0..mid] == lits && mid == op - 2;
  }

  /** LZ4HC_encodeSequence: the literals before ip and the match there.  It answers false only when
      the budget is spent, and never writes past it. */
  method EncodeStep(j: Job, dest: array<byte>, op0: nat, anchor: nat, ip: nat, ml: nat, off: nat, limit: Limit)
    returns (ok: bool, op: nat, ghost s: Sequence)
    requires j.Valid() && Room(j, limit, dest.Length) && j.s0 <= anchor <= ip
    requires Leads(j, ip, off, ml) && ml >= MINMATCH
    requires op0 <= dest.Length && 255 * op0 <= 256 * (anchor - j.s0)
    modifies dest
    ensures Ample(j, limit) ==> ok
    ensures forall k :: 0 <= k < op0 ==> dest[k] == old(dest[k])
    ensures s == Sequence(j.src[anchor..ip], off, ml) && Writable(s)
    ensures !ok ==> limit.Limited? && op0 + SequenceSize(s) + LastSize(LASTLITERALS) > limit.max
    ensures ok ==> op0 <= op <= dest.Length && dest[op0..op] == SeqBytes(s)
  {
    hide SeqBytes, LitBytes, Ext, ExtOf;
    s := Sequence(j.src[anchor..ip], off, ml);
    ChecksPass(op0, anchor - j.s0, ip - anchor, ml - MINMATCH, j.n);
    ok, op := EncodeLiterals(j, dest, op0, anchor, ip, off, limit);
    if !ok { return; }
    ghost var mid, d0 := op, dest[..];
    LitBytesStart(d0, op0, mid - 2, 16 * Nibble(ip - anchor), j.src[anchor..ip]);
    if limit.Limited? && op + (ml - MINMATCH) / 255 + (1 + LASTLITERALS) > limit.max { return false, op, s; }
    op := EmitLengthPairs(dest, op0, op, ml - MINMATCH);
    SequenceWritten(d0, dest[..], op0, mid, op, s);
  }

  lemma TileStep(j: Job, ip: nat, o: seq<Opt>, pos: nat, cur: nat, end: nat)
    requires Tiles(j, ip, o, pos, cur, end) && pos < end
    ensures pos <= cur && pos < |o| && 1 <= o[pos].mlen && pos + o[pos].mlen <= end
    ensures Tiles(j, ip, o, pos + o[pos].mlen, cur, end) && Leads(j, ip + pos, o[pos].off, o[pos].mlen)
    ensures o[pos].mlen == 1 || o[pos].mlen >= MINMATCH
  {
  }

  lemma TilesEnd(j: Job, ip: nat, o: seq<Opt>, pos: nat, cur: nat, end: nat)
    requires Tiles(j, ip, o, pos, cur, end)
    ensures pos <= end && (pos > cur ==> pos == end)
  {
  }

  /** One sequence more: the match at ip, with the literals since anchor. */
  method OneSequence(j: Job, dest: array<byte>, op0: nat, anchor: nat, ip: nat, ml: nat, off: nat, limit: Limit,
                     ghost ss0: seq<Sequence>)
    returns (ok: bool, op: nat, ghost ss: seq<Sequence>)
    requires j.Valid() && Room(j, limit, dest.Length) && op0 <= dest.Length && anchor <= ip
    requires Leads(j, ip, off, ml) && ml >= MINMATCH && Written(j, dest[..op0], anchor, ss0)
    modifies dest
    ensures Ample(j, limit) ==> ok
    ensures ss == ss0 + [Sequence(j.src[anchor..ip], off, ml)] && IsParse(j, Parsed(ss, ip + ml))
    ensures !ok ==> limit.Limited? && Size(j, Parsed(ss, ip + ml)) > limit.max
    ensures ok ==> op <= dest.Length && Written(j, dest[..op], ip + ml, ss)
  {
    hide SeqBytes, BlockBytes, Same, Replay, AllWritable, Legal, Span;
    ghost var d0, s := dest[..], Sequence([], 0, 0);
    WrittenSize(j, dest[..op0], anchor, ss0);
    ok, op, s := EncodeStep(j, dest, op0, anchor, ip, ml, off, limit);
    ss := ss0 + [s];
    ParseMore(j, d0[..op0], anchor, ss0, ip, ip - off, ip + ml, s);
    if ok {
      SequenceDone(j, d0, dest[..], op0, op, anchor, ip, ip - off, ip + ml, ss0, s);
    } else {
      PartSize(j, ss0, s, Parsed(ss, ip + ml), limit.max);
    }
  }

  /** Encodes the recorded steps in order; false only when the budget is spent. */
  method EncodeTiles(j: Job, dest: array<byte>, op0: nat, anchor0: nat, ip0: nat, opt: array<Opt>, last: nat,
                     ghost cur: nat, ghost end: nat, limit: Limit, ghost ss0: seq<Sequence>)
    returns (ok: bool, op: nat, anchor: nat, ip: nat, ghost ss: seq<Sequence>)
    requires j.Valid() && Room(j, limit, dest.Length) && op0 <= dest.Length && anchor0 <= ip0
    requires Written(j, dest[..op0], anchor0, ss0)
    requires Tiles(j, ip0, opt[..], 0, cur, end) && cur < last <= end
    modifies dest
    ensures Ample(j, limit) ==> ok
    ensures !ok ==> && IsParse(j, Parsed(ss, anchor)) && ss != []
                    && limit.Limited? && Size(j, Parsed(ss, anchor)) > limit.max
    ensures ok ==> ip == ip0 + end && j.s0 <= anchor <= ip && op <= dest.Length && Written(j, dest[..op], anchor, ss)
    ensures ok ==> |ss0| <= |ss| && (!AllLiterals(opt[..], 0, end) ==> |ss0| < |ss|)
  {
    hide Leads, Written, Tiles, IsParse, Size, AllLiterals;
    ok, op, anchor, ip, ss := true, op0, anchor0, ip0, ss0;
    var rPos := 0;
    while rPos < last
      invariant rPos <= end && ip == ip0 + rPos && anchor <= ip && Tiles(j, ip0, opt[..], rPos, cur, end)
      invariant ok && op <= dest.Length && Written(j, dest[..op], anchor, ss) && |ss0| <= |ss|
      invariant |ss| > |ss0| || !AllLiterals(opt[..], 0, end) ==> |ss| > |ss0| || !AllLiterals(opt[..], rPos, end)
      decreases end - rPos
      modifies dest
    {
      TileStep(j, ip0, opt[..], rPos, cur, end);
      var ml, offset := opt[rPos].mlen, opt[rPos].off;
      LiteralsStep(opt[..], rPos, end);
      if ml == 1 {
        ip, rPos := ip + 1, rPos + 1;
        continue;
      }
      rPos := rPos + ml;
      ok, op, ss := OneSequence(j, dest, op, anchor, ip, ml, offset, limit, ss);
      ip := ip + ml;
      anchor := ip;
      if !ok { return; }
    }
    TilesEnd(j, ip0, opt[..], rPos, cur, end);
    NoSteps(opt[..], end);
    FromStart(j, dest[..op], anchor, ss);
  }

  lemma NoSteps(o: seq<Opt>, end: nat)
    ensures AllLiterals(o, end, end)
  {
  }

  lemma FromStart(j: Job, d: seq<byte>, anchor: nat, ss: seq<Sequence>)
    requires j.Valid() && Written(j, d, anchor, ss)
    ensures j.s0 <= anchor <= j.Iend()
  {
  }

  // ------------------------------------------------------------------ the parser

  /** No four bytes at that position occur before it in the window, except so near that they are skipped. */
  predicate Unmatched(j: Job, at: nat, favorDecSpeed: bool)
    requires at + MINMATCH <= |j.src|
  {
    forall m: nat :: m < at <= m + DISTANCE_MAX && !(favorDecSpeed && at - m < 8) ==> !Read32Equal(j.src, at, m)
  }

  /** From s0 on, up to a position and as far as matches may start. */
  predicate AllUnmatched(j: Job, ip: int, favorDecSpeed: bool)
    requires j.Valid()
  {
    forall at: nat :: j.s0 <= at < ip && at < j.MflimitPlusOne() ==> Unmatched(j, at, favorDecSpeed)
  }

  /** More searches than there are candidates. */
  predicate Plenty(j: Job, nbSearches: nat) {
    nbSearches >= Min(j.Iend(), DISTANCE_MAX)
  }

  /** A search with plenty of attempts that finds nothing. */
  lemma NothingFound(j: Job, c: Chains, ip: nat, nbSearches: nat, favorDecSpeed: bool)
    requires j.Valid() && j.low == 0 && c.src == j.src && c.Valid() && c.nextToUpdate == c.Index(ip)
    requires j.s0 <= ip < j.MflimitPlusOne() && AllUnmatched(j, ip, favorDecSpeed) && Plenty(j, nbSearches)
    requires c.hashTable.Length == HASHTABLE_SIZE
    requires var g := At(j, ip, MINMATCH - 1, favorDecSpeed);
             var head, lowest := c.hashTable[HashPtr(c.src, ip)], LowestMatchIndex(c.lowLimit, c.Index(ip));
             Enough(nbSearches, head, lowest) ==>
               forall q: nat :: lowest <= q + c.lowLimit && q < ip && !g.Skips(q) ==> Beaten(c.src, g, q, MINMATCH - 1)
    ensures AllUnmatched(j, ip + 1, favorDecSpeed)
  {
    hide HashPtr, Key, Beaten, LinksOk;
    var g := At(j, ip, MINMATCH - 1, favorDecSpeed);
    var h := HashPtr(c.src, ip);
    assert HeadOk(c.src, c.lowLimit, c.nextToUpdate, h, c.hashTable[..][h]);
    forall m: nat | m < ip <= m + DISTANCE_MAX && !(favorDecSpeed && ip - m < 8) ensures !Read32Equal(j.src, ip, m) {
      assert !g.Skips(m);
      BeatenByFour(j.src, g, m);
    }
  }

  lemma BeatenByFour(src: seq<byte>, g: Search, m: nat)
    requires g.Valid(src) && g.LookBack() == 0 && m < g.ip && Beaten(src, g, m, MINMATCH - 1)
    ensures !Read32Equal(src, g.ip, m)
  {
    if Read32Equal(src, g.ip, m) {
      assert src[g.ip] == src[m] && src[g.ip + 1] == src[m + 1] && src[g.ip + 2] == src[m + 2]
             && src[g.ip + 3] == src[m + 3];
      assert Around(src, g, m, g.ip, MINMATCH);
    }
  }

  lemma Matched(j: Job, ip: nat, off: nat, len: nat)
    requires j.Valid() && j.s0 <= ip < j.MflimitPlusOne() && Leads(j, ip, off, len) && len >= MINMATCH
    ensures !AllUnmatched(j, j.MflimitPlusOne(), false)
  {
    var m := ip - off;
    assert j.src[ip] == j.src[m] && j.src[ip + 1] == j.src[m + 1] && j.src[ip + 2] == j.src[m + 2]
           && j.src[ip + 3] == j.src[m + 3];
    assert Read32Equal(j.src, ip, m) && !Unmatched(j, ip, false);
  }

  /** A run of one byte from the start on, longer than what is taken at once. */
  predicate LongRun(j: Job, nbSearches: nat, sufficient: nat, favorDecSpeed: bool)
    requires j.Valid()
  {
    j.s0 == 0 && IsRun(j.src[..j.Iend()]) && !favorDecSpeed && nbSearches > 0 && j.n > sufficient + 6
  }

  /** Its parse: one literal, one match and five literals. */
  function RunParse(j: Job): Parsed
    requires j.Valid() && j.n >= MIN_LENGTH
  {
    Parsed([Sequence([j.src[j.s0]], 1, j.n - 6)], j.Matchlimit())
  }

  /** The search at the second byte of a run. */
  lemma RunFound(j: Job, c: Chains, m: HcMatch, nbSearches: nat, sufficient: nat)
    requires j.Valid() && j.low == 0 && c.src == j.src && c.Valid() && c.nextToUpdate == c.Index(1)
    requires LongRun(j, nbSearches, sufficient, false) && c.hashTable.Length == HASHTABLE_SIZE
    requires m.len != 0 ==> m.len >= MINMATCH && Leads(j, 1, m.off, m.len)
    requires var g := At(j, 1, MINMATCH - 1, false);
             var head, lowest := c.hashTable[HashPtr(c.src, 1)], LowestMatchIndex(c.lowLimit, c.Index(1));
             lowest <= head < c.Index(1) && !g.Skips(head - c.lowLimit) ==>
               Beaten(c.src, g, head - c.lowLimit, Reach(m, MINMATCH - 1, false))
    ensures m.len == j.n - 6 && [] + [Sequence(j.src[0..1], m.off, m.len)] == RunParse(j).ss
  {
    hide HashPtr, Beaten, LinksOk;
    var src, g, h := j.src, At(j, 1, MINMATCH - 1, false), HashPtr(c.src, 1);
    assert HeadOk(c.src, c.lowLimit, c.nextToUpdate, h, c.hashTable[..][h]);
    assert forall k :: 0 <= k < j.Iend() ==> src[k] == src[..j.Iend()][k] == src[0];
    SameHash(src, 1, 0);
    assert Key(src, c.lowLimit, c.lowLimit) == h;
    assert Around(src, g, 0, 1, j.n - 6);
    RunBeaten(src, g, j.n - 6, Reach(m, MINMATCH - 1, false));
    assert m.off == 1 && src[0..1] == [src[0]];
  }

  lemma RunBeaten(src: seq<byte>, g: Search, n: nat, longest: nat)
    requires g.Valid(src) && Around(src, g, 0, g.ip, n) && Beaten(src, g, 0, longest)
    ensures n <= longest
  {
  }

  lemma NoneYet(j: Job, favorDecSpeed: bool)
    requires j.Valid()
    ensures AllUnmatched(j, j.s0, favorDecSpeed)
  {
  }

  lemma NoneLeft(j: Job, ip: int, favorDecSpeed: bool)
    requires j.Valid() && ip >= j.MflimitPlusOne() && AllUnmatched(j, ip, favorDecSpeed)
    ensures AllUnmatched(j, j.MflimitPlusOne(), favorDecSpeed)
  {
  }

  lemma RunLength(j: Job)
    requires j.Valid()
    ensures IsRun(j.src[..j.Iend()]) && j.s0 == 0 ==> j.n >= MIN_LENGTH
  {
  }

  lemma RunSized(j: Job)
    requires j.Valid() && j.n >= MIN_LENGTH
    ensures Size(j, RunParse(j)) == RunSize(j.n)
  {
    var s := RunParse(j).ss[0];
    assert [s][..0] == [] && SequencesSize([]) == 0;
    assert SequencesSize([s]) == SequenceSize(s);
  }

  /** LZ4HC_compress_optimal over one segment, without fillOutput: whatever the search depth and the
      speed options, the answer is the block of a parse that replays the source, no longer than the
      source as literals, or 0 when that parse does not fit the budget.  With plenty of searches there
      are matches in it as soon as four bytes repeat anywhere in reach. */
  method CompressOptimal(j: Job, c: Chains, dest: array<byte>, limit: Limit, nbSearches: nat, sufficientLen: nat,
                         fullUpdate: bool, favorDecSpeed: bool)
    returns (r: nat, ghost p: Parsed)
    requires j.Valid() && j.low == 0 && c.src == j.src && c.Valid() && c.nextToUpdate <= c.Index(j.s0)
    requires Room(j, limit, dest.Length)
    modifies dest, c`nextToUpdate, c.hashTable, c.chainTable
    ensures c.Valid() && r <= dest.Length && r <= Lz4Sequences.CompressBound(j.n) && (Ample(j, limit) ==> r > 0)
    ensures IsParse(j, p) && Size(j, p) <= LastSize(j.n) && Answer(j, p, limit, r, dest[..r])
    ensures r > 0 ==> Encodes(dest[..r], j.src[..j.s0], j.src[j.s0..j.Iend()])
    ensures p.ss == [] && Plenty(j, nbSearches) ==> AllUnmatched(j, j.MflimitPlusOne(), favorDecSpeed)
    ensures p.ss != [] ==> !AllUnmatched(j, j.MflimitPlusOne(), false)
    ensures LongRun(j, nbSearches, Min(sufficientLen, OPT_NUM - 1), favorDecSpeed) ==>
              p == RunParse(j) && Size(j, RunParse(j)) == RunSize(j.n)
  {
    hide Written, Tiles, Leads, Filled, Encodes, IsParse, Size, Answer, Unmatched, AllUnmatched, Start, AllLiterals,
      HashPtr, Beaten, HeadsOk, LinksOk, IsRun;
    var sufficient := if sufficientLen >= OPT_NUM then OPT_NUM - 1 else sufficientLen;
    var opt := new Opt[OPT_NUM + TRAILING_LITERALS](_ => Opt(0, 0, 1, 0));
    var ip, anchor, op: nat := j.s0, j.s0, 0;
    ghost var ss, run := [], LongRun(j, nbSearches, sufficient, favorDecSpeed);
    WrittenStart(j, dest[..op]);
    NoneYet(j, favorDecSpeed);
    if j.n >= MIN_LENGTH { RunSized(j); }
    RunLength(j);
    while ip < j.MflimitPlusOne()
      invariant j.s0 <= anchor <= ip && op <= dest.Length && Written(j, dest[..op], anchor, ss)
      invariant c.Valid() && c.nextToUpdate <= c.Index(ip)
      invariant ss == [] && Plenty(j, nbSearches) ==> AllUnmatched(j, ip, favorDecSpeed)
      invariant ss != [] ==> !AllUnmatched(j, j.MflimitPlusOne(), false)
      invariant run ==> || (ip <= 1 && anchor == 0 && ss == [])
                        || (ip == j.Matchlimit() && RunParse(j) == Parsed(ss, anchor))
      decreases j.Iend() - ip
    {
      var first := FindLongerMatch(j, c, ip, MINMATCH - 1, nbSearches, favorDecSpeed);
      if run && ip == 1 { RunFound(j, c, first, nbSearches, sufficient); }
      if first.len == 0 {
        if ss == [] && Plenty(j, nbSearches) { NothingFound(j, c, ip, nbSearches, favorDecSpeed); }
        ip := ip + 1;
        continue;
      }
      Matched(j, ip, first.off, first.len);
      LeadsWithin(j, ip, first.off, first.len);
      var ok;
      if first.len > sufficient {
        ok, op, ss := OneSequence(j, dest, op, anchor, ip, first.len, first.off, limit, ss);
        ip := ip + first.len;
        anchor := ip;
        if !ok {
          r, p := 0, Parsed(ss, anchor);
          Overflow(j, p, limit, dest[..0]);
          return;
        }
        continue;
      }
      var last := FirstPrices(j, ip, opt, ip - anchor, first);
      var cur, bestLength, bestOffset;
      cur, last, bestLength, bestOffset :=
        Explore(j, c, opt, ip, last, nbSearches, sufficient, fullUpdate, favorDecSpeed, ip - anchor);
      ReverseTraversal(j, ip, opt, cur, bestLength, bestOffset);
      ok, op, anchor, ip, ss := EncodeTiles(j, dest, op, anchor, ip, opt, last, cur, cur + bestLength, limit, ss);
      if !ok {
        r, p := 0, Parsed(ss, anchor);
        Overflow(j, p, limit, dest[..0]);
        return;
      }
    }
    if AllUnmatched(j, ip, favorDecSpeed) { NoneLeft(j, ip, favorDecSpeed); }
    p := Parsed(ss, anchor);
    Parses(j, dest[..op], p);
    r := LastLiterals(j, dest, op, anchor, limit, ss);
    assert j.src[j.low..j.s0] == j.src[..j.s0];
  }

  lemma Overflow(j: Job, p: Parsed, limit: Limit, d: seq<byte>)
    requires j.Valid() && IsParse(j, p) && limit.Limited? && Size(j, p) > limit.max
    ensures Answer(j, p, limit, 0, d) && Size(j, p) <= LastSize(j.n)
  {
    hide IsParse;
    ParseSize(j, p);
  }

  lemma Parses(j: Job, d: seq<byte>, p: Parsed)
    requires j.Valid() && Written(j, d, p.anchor, p.ss)
    ensures IsParse(j, p) && Size(j, p) <= LastSize(j.n)
  {
    ParseSize(j, p);
  }

  /** A whole source, at every optimal level, into the room of the bound. */
  method CompressWhole(src: seq<byte>, nbSearches: nat, sufficientLen: nat, fullUpdate: bool, favorDecSpeed: bool)
    returns (block: seq<byte>)
    requires |src| <= MAX_INPUT_SIZE
    ensures |block| <= LastSize(|src|) && Encodes(block, [], src)
  {
    hide Encodes, HeadsOk, LinksOk, LongRun, AllUnmatched, IsParse, Size, IsBlock;
    var c := new Chains(src);
    var j := Job(src, 0, |src|, 0, 0, false, false, _ => 0);
    var dest := new byte[Lz4Sequences.CompressBound(|src|)];
    var r, p := CompressOptimal(j, c, dest, NotLimited, nbSearches, sufficientLen, fullUpdate, favorDecSpeed);
    block := dest[..r];
    assert src[..0] == [] && src[0..|src|] == src;
  }

  /** What is compressed so is decoded to the source. */
  method RoundTrip(src: seq<byte>, nbSearches: nat, sufficientLen: nat, fullUpdate: bool, favorDecSpeed: bool,
                   buf: array<byte>, cap: nat)
    returns (n: int)
    requires |src| <= MAX_INPUT_SIZE && 0 < cap <= buf.Length && |src| <= cap <= INT_MAX
    modifies buf
    ensures n == |src| && buf[..n] == src
  {
    hide Encodes, Decode;
    var block := CompressWhole(src, nbSearches, sufficientLen, fullUpdate, favorDecSpeed);
    assert buf[0..0] == [];
    n := Lz4Decoder.DecompressGeneric(block, buf, 0, 0, cap, false);
  }
}
