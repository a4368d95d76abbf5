/** The hash chains of LZ4HC: hashTable names the latest position of each hash, chainTable the
    distance from a position to the one before it with the same hash, in 16 bits and modulo
    64 KB positions. */
module Lz4HcChain {
  import opened Lz4Format

  const HASHTABLE_SIZE := 0x8000
  const MAXD := 0x1_0000

  function Read32(src: seq<byte>, p: nat): nat
    requires p + 4 <= |src|
  {
    src[p] as nat + 0x100 * src[p + 1] as nat + 0x1_0000 * src[p + 2] as nat + 0x100_0000 * src[p + 3] as nat
  }

  /** LZ4HC_hashPtr. */
  function HashPtr(src: seq<byte>, p: nat): (h: nat)
    requires p + 4 <= |src|
    ensures h < HASHTABLE_SIZE
  {
    Read32(src, p) * 2654435761 % U32 / 0x2_0000
  }

  /** The hash of the bytes at index idx, when src[0] has the index low; no hash outside. */
  function Key(src: seq<byte>, low: nat, idx: int): (k: nat)
    ensures low <= idx && idx - low + 4 <= |src| <==> k < HASHTABLE_SIZE
  {
    if low <= idx && idx - low + 4 <= |src| then HashPtr(src, idx - low) else HASHTABLE_SIZE
  }

  // -------------------------------------------------------- what the tables hold

  /** The indexes with the hash h from lo on and before hi, the latest first. */
  function Positions(src: seq<byte>, low: nat, h: nat, lo: nat, hi: nat): seq<nat>
    decreases hi
  {
    if hi <= lo then []
    else if Key(src, low, hi - 1) == h then [hi - 1] + Positions(src, low, h, lo, hi - 1)
    else Positions(src, low, h, lo, hi - 1)
  }

  /** The indexes that following the chain from idx visits, down to lo. */
  function Walk(chain: seq<nat>, idx: int, lo: nat): seq<nat>
    requires |chain| == MAXD && forall k :: 0 <= k < MAXD ==> chain[k] > 0
    decreases idx
  {
    if idx < lo then [] else [idx] + Walk(chain, idx - chain[idx % MAXD], lo)
  }

  /** Between idx and d before it the hash of idx does not occur; it occurs there, unless that is
      below low or d is the largest distance. */
  ghost predicate LinkOk(src: seq<byte>, low: nat, idx: nat, d: nat) {
    && 1 <= d <= DISTANCE_MAX
    && (forall q :: idx - d < q < idx ==> Key(src, low, q) != Key(src, low, idx))
    && (d < DISTANCE_MAX && low <= idx - d ==> Key(src, low, idx - d) == Key(src, low, idx))
  }

  /** v is the latest index before next with the hash h, or below low when there is none. */
  ghost predicate HeadOk(src: seq<byte>, low: nat, next: nat, h: nat, v: nat) {
    && v < next && (v >= low ==> Key(src, low, v) == h)
    && forall q :: v < q < next ==> Key(src, low, q) != h
  }

  ghost predicate HeadsOk(src: seq<byte>, low: nat, next: nat, heads: seq<nat>) {
    |heads| == HASHTABLE_SIZE && forall h :: 0 <= h < HASHTABLE_SIZE ==> HeadOk(src, low, next, h, heads[h])
  }

  ghost predicate LinksOk(src: seq<byte>, low: nat, next: nat, chain: seq<nat>) {
    && |chain| == MAXD && (forall k :: 0 <= k < MAXD ==> 1 <= chain[k] <= DISTANCE_MAX)
    && forall idx :: low <= idx < next <= idx + MAXD ==> LinkOk(src, low, idx, chain[idx % MAXD])
  }

  // ------------------------------------------------------------------ the theorem

  /** No index of the hash h in between: the positions below are all there are. */
  lemma {:induction false} PositionsSkip(src: seq<byte>, low: nat, h: nat, lo: nat, mid: nat, hi: nat)
    requires mid <= hi && forall q :: mid <= q < hi ==> Key(src, low, q) != h
    ensures Positions(src, low, h, lo, hi) == Positions(src, low, h, lo, mid)
    decreases hi
  {
    if mid < hi {
      PositionsSkip(src, low, h, lo, mid, hi - 1);
      if hi <= lo { PositionsNone(src, low, h, lo, mid); }
    }
  }

  lemma PositionsNone(src: seq<byte>, low: nat, h: nat, lo: nat, hi: nat)
    requires hi <= lo
    ensures Positions(src, low, h, lo, hi) == []
  {
  }

  /** Following the links from idx visits idx and all earlier positions with its hash. */
  lemma {:induction false} WalkVisits(src: seq<byte>, low: nat, next: nat, chain: seq<nat>, idx: nat, lo: nat)
    requires LinksOk(src, low, next, chain) && low <= lo <= idx < next <= lo + DISTANCE_MAX
    ensures Walk(chain, idx, lo) == Positions(src, low, Key(src, low, idx), lo, idx + 1)
    decreases idx
  {
    hide Key, HashPtr;
    var d, h := chain[idx % MAXD], Key(src, low, idx);
    assert LinkOk(src, low, idx, d);
    var prev := idx - d;
    if prev >= lo {
      WalkVisits(src, low, next, chain, prev, lo);
      PositionsSkip(src, low, h, lo, prev + 1, idx);
    } else {
      PositionsSkip(src, low, h, lo, lo, idx);
      PositionsNone(src, low, h, lo, lo);
      assert Walk(chain, prev, lo) == [];
    }
  }

  /** What a search at index next with the hash h finds in the tables: exactly the earlier indexes in
      the window with that hash, the latest first. */
  lemma ChainComplete(src: seq<byte>, low: nat, next: nat, heads: seq<nat>, chain: seq<nat>, h: nat, lo: nat)
    requires HeadsOk(src, low, next, heads) && LinksOk(src, low, next, chain) && h < HASHTABLE_SIZE
    requires low <= lo && next <= lo + DISTANCE_MAX
    ensures Walk(chain, heads[h], lo) == Positions(src, low, h, lo, next)
  {
    hide Key, HashPtr;
    var v := heads[h];
    assert HeadOk(src, low, next, h, v);
    if v >= lo {
      WalkVisits(src, low, next, chain, v, lo);
      PositionsSkip(src, low, h, lo, v + 1, next);
    } else if lo <= next {
      PositionsSkip(src, low, h, lo, lo, next);
      PositionsNone(src, low, h, lo, lo);
    } else {
      PositionsNone(src, low, h, lo, next);
    }
  }

  /** Positions are those with the hash, in strictly decreasing order. */
  lemma {:induction false} PositionsExact(src: seq<byte>, low: nat, h: nat, lo: nat, hi: nat)
    ensures var ps := Positions(src, low, h, lo, hi);
            && (forall k :: 0 <= k < |ps| ==> lo <= ps[k] < hi && Key(src, low, ps[k]) == h)
            && (forall k :: 0 < k < |ps| ==> ps[k] < ps[k - 1])
            && (forall q: nat :: lo <= q < hi && Key(src, low, q) == h ==> q in ps)
    decreases hi
  {
    hide Key;
    if lo < hi {
      PositionsExact(src, low, h, lo, hi - 1);
      var ps, rest := Positions(src, low, h, lo, hi), Positions(src, low, h, lo, hi - 1);
      if ps != rest {
        forall k | 1 <= k < |ps| ensures ps[k] == rest[k - 1] {
        }
      }
      forall q: nat | lo <= q < hi && Key(src, low, q) == h ensures q in ps {
        if q == hi - 1 {
          assert ps[0] == q;
        } else if Key(src, low, hi - 1) == h {
          assert q in rest && ps == [hi - 1] + rest;
        }
      }
    }
  }

  // ------------------------------------------------------------------- the tables

  /** LZ4HC_CCtx_internal over one segment: src[0] has the index lowLimit. */
  class Chains {
    const src: seq<byte>
    const lowLimit: nat
    const hashTable: array<nat>
    const chainTable: array<nat>
    var nextToUpdate: nat

    ghost predicate Valid()
      reads this, hashTable, chainTable
    {
      && KB64 <= lowLimit <= nextToUpdate && lowLimit + |src| < U32
      && hashTable != chainTable
      && HeadsOk(src, lowLimit, nextToUpdate, hashTable[..])
      && LinksOk(src, lowLimit, nextToUpdate, chainTable[..])
    }

    /** The tables cleared, before any position is inserted: LZ4HC_clearTables and
        LZ4HC_init_internal on a new context. */
    constructor (src: seq<byte>)
      requires |src| <= MAX_INPUT_SIZE
      ensures Valid() && this.src == src && lowLimit == nextToUpdate == KB64
      ensures fresh(hashTable) && fresh(chainTable)
    {
      this.src, lowLimit, nextToUpdate := src, KB64, KB64;
      hashTable := new nat[HASHTABLE_SIZE](_ => 0);
      chainTable := new nat[MAXD](_ => 0xFFFF);
      new;
      forall h | 0 <= h < HASHTABLE_SIZE ensures HeadOk(src, lowLimit, nextToUpdate, h, 0) {
        hide HashPtr;
      }
    }

    function Index(p: nat): nat { p + lowLimit }

    /** DELTANEXTU16: the distance from an index to the one before it in its chain. */
    function Delta(idx: nat): nat
      requires chainTable.Length == MAXD
      reads chainTable
    {
      chainTable[idx % MAXD]
    }

    lemma DeltaRange(idx: nat)
      requires Valid()
      ensures chainTable.Length == MAXD && 1 <= Delta(idx) <= DISTANCE_MAX
    {
      hide HeadsOk, LinkOk;
      assert chainTable[..][idx % MAXD] == chainTable[idx % MAXD];
    }

    lemma LinkAt(idx: nat)
      requires Valid() && lowLimit <= idx < nextToUpdate <= idx + MAXD
      ensures chainTable.Length == MAXD && LinkOk(src, lowLimit, idx, Delta(idx))
    {
      hide HeadsOk, LinkOk;
      assert chainTable[..][idx % MAXD] == chainTable[idx % MAXD];
    }

    /** LZ4HC_Insert: the chains learn all positions before ip.  Searches that go on from left to
        right never ask for less than is known. */
    method Insert(ip: nat)
      requires Valid() && nextToUpdate <= Index(ip) && ip <= |src|
      requires nextToUpdate < Index(ip) ==> ip + 3 <= |src|
      modifies `nextToUpdate, hashTable, chainTable
      ensures Valid() && nextToUpdate == Index(ip)
    {
      hide HashPtr, HeadsOk, LinksOk;
      var target, idx := Index(ip), nextToUpdate;
      while idx < target
        invariant nextToUpdate == old(nextToUpdate) <= idx <= target
        invariant HeadsOk(src, lowLimit, idx, hashTable[..]) && LinksOk(src, lowLimit, idx, chainTable[..])
      {
        InsertOne(idx);
        idx := idx + 1;
      }
      nextToUpdate := target;
    }

    method InsertOne(idx: nat)
      requires lowLimit >= KB64 && lowLimit <= idx && idx - lowLimit + 4 <= |src| && hashTable != chainTable
      requires HeadsOk(src, lowLimit, idx, hashTable[..]) && LinksOk(src, lowLimit, idx, chainTable[..])
      modifies hashTable, chainTable
      ensures HeadsOk(src, lowLimit, idx + 1, hashTable[..]) && LinksOk(src, lowLimit, idx + 1, chainTable[..])
    {
      hide HashPtr;
      var h := HashPtr(src, idx - lowLimit);
      assert h == Key(src, lowLimit, idx);
      ghost var heads, chain := hashTable[..], chainTable[..];
      assert HeadOk(src, lowLimit, idx, h, heads[h]);
      var delta: nat := idx - hashTable[h];
      if delta > DISTANCE_MAX { delta := DISTANCE_MAX; }
      chainTable[idx % MAXD] := delta;
      hashTable[h] := idx;
      HeadsNext(src, lowLimit, idx, h, heads);
      LinksNext(src, lowLimit, idx, h, heads[h], delta, chain);
      assert hashTable[..] == heads[h := idx];
      assert chainTable[..] == chain[idx % MAXD := delta];
    }
  }

  lemma HeadsNext(src: seq<byte>, low: nat, idx: nat, h: nat, heads: seq<nat>)
    requires HeadsOk(src, low, idx, heads) && h == Key(src, low, idx) < HASHTABLE_SIZE
    ensures HeadsOk(src, low, idx + 1, heads[h := idx])
  {
    hide Key;
    var heads' := heads[h := idx];
    forall k | 0 <= k < HASHTABLE_SIZE ensures HeadOk(src, low, idx + 1, k, heads'[k]) {
      assert HeadOk(src, low, idx, k, heads[k]);
    }
  }

  lemma LinksNext(src: seq<byte>, low: nat, idx: nat, h: nat, head: nat, delta: nat, chain: seq<nat>)
    requires LinksOk(src, low, idx, chain) && h == Key(src, low, idx) && HeadOk(src, low, idx, h, head)
    requires delta == if idx - head > DISTANCE_MAX then DISTANCE_MAX else idx - head
    ensures LinksOk(src, low, idx + 1, chain[idx % MAXD := delta])
  {
    hide Key;
    var chain' := chain[idx % MAXD := delta];
    assert LinkOk(src, low, idx, delta);
    forall i | low <= i < idx + 1 <= i + MAXD ensures LinkOk(src, low, i, chain'[i % MAXD]) {
      if i < idx {
        OtherSlot(i, idx);
        assert LinkOk(src, low, i, chain[i % MAXD]);
      }
    }
  }

  lemma OtherSlot(i: nat, j: nat)
    requires i < j < i + MAXD
    ensures i % MAXD != j % MAXD
  {
  }
}
