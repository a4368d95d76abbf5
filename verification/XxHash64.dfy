/** XXH64: the one-shot hash and the streaming state agree. */
module XxHash64 {
  import opened Lz4Format
  import opened XxStripes

  const PRIME64_1: bv64 := 11400714785074694791
  const PRIME64_2: bv64 := 14029467366897019727
  const PRIME64_3: bv64 := 1609587929392839161
  const PRIME64_4: bv64 := 9650029242287828579
  const PRIME64_5: bv64 := 2870177450012600261

  const STRIPE := 32

  const U64 := 0x1_0000_0000_0000_0000

  datatype Lanes = Lanes(v1: bv64, v2: bv64, v3: bv64, v4: bv64)

  // ------------------------------------------------------------------- rounds

  function Times(a: bv64, b: bv64): bv64 { a * b }

  function Plus(a: bv64, b: bv64): bv64 { a + b }

  function Round(seed: bv64, input: bv64): bv64 {
    Times(Plus(seed, Times(input, PRIME64_2)).RotateLeft(31), PRIME64_1)
  }

  function MergeRound(acc: bv64, val: bv64): bv64 {
    Plus(Times(acc ^ Round(0, val), PRIME64_1), PRIME64_4)
  }

  function Avalanche(h: bv64): bv64 {
    var a := Times(h ^ (h >> 33), PRIME64_2);
    var b := Times(a ^ (a >> 29), PRIME64_3);
    b ^ (b >> 32)
  }

  /** Four bytes, the lowest first. */
  function Four(a: bv64, b: bv64, c: bv64, d: bv64): bv64 { a | (b << 8) | (c << 16) | (d << 24) }

  /** XXH_readLE32. */
  function Half(s: seq<byte>, i: nat): bv64
    requires i + 4 <= |s|
  {
    Four(s[i] as bv64, s[i + 1] as bv64, s[i + 2] as bv64, s[i + 3] as bv64)
  }

  function Join(low: bv64, high: bv64): bv64 { low | (high << 32) }

  /** XXH_readLE64. */
  function Word(s: seq<byte>, i: nat): bv64
    requires i + 8 <= |s|
  {
    Join(Half(s, i), Half(s, i + 4))
  }

  /** A length truncated to 64 bits. */
  function Low64(n: nat): (r: nat)
    ensures r < U64 && (n < U64 ==> r == n)
  {
    n % U64
  }

  function Length(n: nat): bv64 { Low64(n) as bv64 }

  function Init(seed: bv64): Lanes {
    Lanes(seed + PRIME64_1 + PRIME64_2, seed + PRIME64_2, seed + 0, seed - PRIME64_1)
  }

  function Stripe(l: Lanes, s: seq<byte>): Lanes {
    if |s| != STRIPE then l
    else Lanes(Round(l.v1, Word(s, 0)), Round(l.v2, Word(s, 8)), Round(l.v3, Word(s, 16)), Round(l.v4, Word(s, 24)))
  }

  /** The lanes after the whole stripes of s. */
  function LanesOf(seed: bv64, s: seq<byte>): Lanes {
    Stripes(Stripe, STRIPE, Init(seed), s)
  }

  /** The start of a hash without a whole stripe. */
  function Short(seed: bv64): bv64 { seed + PRIME64_5 }

  function AddLength(h: bv64, n: nat): bv64 { Plus(h, Length(n)) }

  function Converge(l: Lanes): bv64 {
    var h := Plus(Plus(Plus(l.v1.RotateLeft(1), l.v2.RotateLeft(7)), l.v3.RotateLeft(12)), l.v4.RotateLeft(18));
    MergeRound(MergeRound(MergeRound(MergeRound(h, l.v1), l.v2), l.v3), l.v4)
  }

  function Step8(h: bv64, w: bv64): bv64 {
    Plus(Times((h ^ Round(0, w)).RotateLeft(27), PRIME64_1), PRIME64_4)
  }

  function Step4(h: bv64, w: bv64): bv64 {
    Plus(Times((h ^ Times(w, PRIME64_1)).RotateLeft(23), PRIME64_2), PRIME64_3)
  }

  function Step1(h: bv64, b: byte): bv64 {
    Times((h ^ Times(b as bv64, PRIME64_5)).RotateLeft(11), PRIME64_1)
  }

  // ---------------------------------------------------------------- the hash

  /** What is left after the stripes: words of eight bytes, then one of four, then bytes. */
  function Tail(h: bv64, s: seq<byte>): bv64
    decreases |s|
  {
    if |s| >= 8 then Tail(Step8(h, Word(s, 0)), s[8..])
    else if |s| >= 4 then Tail(Step4(h, Half(s, 0)), s[4..])
    else if |s| > 0 then Tail(Step1(h, s[0]), s[1..])
    else h
  }

  /** The hash of all the data. */
  function Hash(data: seq<byte>, seed: bv64): bv64 {
    var whole := |data| - |data| % STRIPE;
    var h := if |data| >= STRIPE then Converge(LanesOf(seed, data[..whole])) else Short(seed);
    Avalanche(Tail(AddLength(h, |data|), data[whole..]))
  }

  method Process8(h: bv64, s: seq<byte>, p: nat) returns (h': bv64, p': nat)
    requires p + 8 <= |s|
    ensures p' == p + 8 && Tail(h', s[p'..]) == Tail(h, s[p..])
  {
    hide Step8, Word;
    h', p' := Step8(h, Word(s, p)), p + 8;
    assert s[p..][8..] == s[p'..];
    WordWithin(s, p, s[p..], 0);
  }

  method Process4(h: bv64, s: seq<byte>, p: nat) returns (h': bv64, p': nat)
    requires p + 4 <= |s| < p + 8
    ensures p' == p + 4 && Tail(h', s[p'..]) == Tail(h, s[p..])
  {
    hide Step4, Half;
    h', p' := Step4(h, Half(s, p)), p + 4;
    assert s[p..][4..] == s[p'..];
    HalfWithin(s, p, s[p..], 0);
  }

  method Process1(h: bv64, s: seq<byte>, p: nat) returns (h': bv64, p': nat)
    requires p < |s| < p + 4
    ensures p' == p + 1 && Tail(h', s[p'..]) == Tail(h, s[p..])
  {
    hide Step1;
    h', p' := Step1(h, s[p]), p + 1;
    assert s[p..][1..] == s[p'..];
  }

  /** XXH64_finalize: the switch with its fall-throughs. */
  method Finalize(h0: bv64, s: seq<byte>, total: nat) returns (r: bv64)
    requires |s| == total % STRIPE
    ensures r == Avalanche(Tail(h0, s))
  {
    hide Avalanche, Step1, Step4, Step8, Half, Word, Tail;
    var h, p, len := h0, 0, total % STRIPE;
    assert s[0..] == s;
    if len in {24, 16, 8} {
      if len == 24 { h, p := Process8(h, s, p); }
      if len >= 16 { h, p := Process8(h, s, p); }
      h, p := Process8(h, s, p);
    } else if len in {28, 20, 12, 4} {
      if len == 28 { h, p := Process8(h, s, p); }
      if len >= 20 { h, p := Process8(h, s, p); }
      if len >= 12 { h, p := Process8(h, s, p); }
      h, p := Process4(h, s, p);
    } else if len in {25, 17, 9} {
      if len == 25 { h, p := Process8(h, s, p); }
      if len >= 17 { h, p := Process8(h, s, p); }
      h, p := Process8(h, s, p);
      h, p := Process1(h, s, p);
    } else if len in {29, 21, 13, 5} {
      if len == 29 { h, p := Process8(h, s, p); }
      if len >= 21 { h, p := Process8(h, s, p); }
      if len >= 13 { h, p := Process8(h, s, p); }
      h, p := Process4(h, s, p);
      h, p := Process1(h, s, p);
    } else if len in {26, 18, 10} {
      if len == 26 { h, p := Process8(h, s, p); }
      if len >= 18 { h, p := Process8(h, s, p); }
      h, p := Process8(h, s, p);
      h, p := Process1(h, s, p);
      h, p := Process1(h, s, p);
    } else if len in {30, 22, 14, 6} {
      if len == 30 { h, p := Process8(h, s, p); }
      if len >= 22 { h, p := Process8(h, s, p); }
      if len >= 14 { h, p := Process8(h, s, p); }
      h, p := Process4(h, s, p);
      h, p := Process1(h, s, p);
      h, p := Process1(h, s, p);
    } else if len in {27, 19, 11} {
      if len == 27 { h, p := Process8(h, s, p); }
      if len >= 19 { h, p := Process8(h, s, p); }
      h, p := Process8(h, s, p);
      h, p := Process1(h, s, p);
      h, p := Process1(h, s, p);
      h, p := Process1(h, s, p);
    } else {
      if len == 31 { h, p := Process8(h, s, p); }
      if len >= 23 { h, p := Process8(h, s, p); }
      if len >= 15 { h, p := Process8(h, s, p); }
      if len >= 7 { h, p := Process4(h, s, p); }
      if len >= 3 { h, p := Process1(h, s, p); }
      if len >= 2 { h, p := Process1(h, s, p); }
      if len >= 1 { h, p := Process1(h, s, p); }
    }
    TailEnd(h, s, p);
    r := Avalanche(h);
  }

  lemma TailEnd(h: bv64, s: seq<byte>, p: nat)
    requires p == |s|
    ensures Tail(h, s[p..]) == h
  {
  }

  /** One stripe more: the lanes of the first p bytes become those of the first p + 32. */
  lemma OneStripe(l: Lanes, s: seq<byte>, p: nat)
    requires p % STRIPE == 0 && p + STRIPE <= |s|
    ensures Stripes(Stripe, STRIPE, l, s[..p + STRIPE])
         == Stripe(Stripes(Stripe, STRIPE, l, s[..p]), s[p..p + STRIPE])
  {
    hide Stripe, Stripes;
    StripesSplit(Stripe, STRIPE, l, s[..p], s[p..p + STRIPE]);
    assert s[..p] + s[p..p + STRIPE] == s[..p + STRIPE];
    StripesOne(Stripe, STRIPE, Stripes(Stripe, STRIPE, l, s[..p]), s[p..p + STRIPE]);
  }

  /** The loop of the one-shot hash and of an update: all whole stripes of s from p0 on. */
  method Consume(l0: Lanes, s: seq<byte>, p0: nat) returns (l: Lanes, p: nat)
    requires p0 + STRIPE <= |s|
    ensures p0 < p <= |s| && (p - p0) % STRIPE == 0 && |s| - p < STRIPE
    ensures l == Stripes(Stripe, STRIPE, l0, s[p0..p])
  {
    hide Round, Word, Stripes, Init;
    var v1, v2, v3, v4 := l0.v1, l0.v2, l0.v3, l0.v4;
    ghost var t := s[p0..];
    p := p0;
    StripesNone(Stripe, STRIPE, l0, t[..0]);
    assert t[..0] == [];
    while p + STRIPE <= |s|
      invariant p0 <= p <= |s| && (p - p0) % STRIPE == 0
      invariant Lanes(v1, v2, v3, v4) == Stripes(Stripe, STRIPE, l0, t[..p - p0])
    {
      OneStripe(l0, t, p - p0);
      StripeWords(s, p);
      assert t[p - p0..p - p0 + STRIPE] == s[p..p + STRIPE];
      v1 := Round(v1, Word(s, p));
      v2 := Round(v2, Word(s, p + 8));
      v3 := Round(v3, Word(s, p + 16));
      v4 := Round(v4, Word(s, p + 24));
      p := p + STRIPE;
    }
    l := Lanes(v1, v2, v3, v4);
    assert t[..p - p0] == s[p0..p];
  }

  lemma StripeWords(s: seq<byte>, p: nat)
    requires p + STRIPE <= |s|
    ensures var x := s[p..p + STRIPE];
            && Word(x, 0) == Word(s, p) && Word(x, 8) == Word(s, p + 8)
            && Word(x, 16) == Word(s, p + 16) && Word(x, 24) == Word(s, p + 24)
  {
    hide Word;
    var x := s[p..p + STRIPE];
    WordWithin(s, p, x, 0);
    WordWithin(s, p, x, 8);
    WordWithin(s, p, x, 16);
    WordWithin(s, p, x, 24);
  }

  lemma WordWithin(s: seq<byte>, p: nat, x: seq<byte>, k: nat)
    requires p + |x| <= |s| && x == s[p..p + |x|] && k + 8 <= |x|
    ensures Word(x, k) == Word(s, p + k)
  {
    hide Half, Join;
    HalfWithin(s, p, x, k);
    HalfWithin(s, p, x, k + 4);
  }

  lemma HalfWithin(s: seq<byte>, p: nat, x: seq<byte>, k: nat)
    requires p + |x| <= |s| && x == s[p..p + |x|] && k + 4 <= |x|
    ensures Half(x, k) == Half(s, p + k)
  {
    assert x[k] == s[p + k] && x[k + 1] == s[p + k + 1] && x[k + 2] == s[p + k + 2] && x[k + 3] == s[p + k + 3];
  }

  /** XXH64_endian_align: the one-shot hash. */
  method XXH64(data: seq<byte>, seed: bv64) returns (r: bv64)
    ensures r == Hash(data, seed)
  {
    hide Hash, Init, Stripe, Stripes, Converge, Short, AddLength, Avalanche, Tail;
    var h, p := Short(seed), 0;
    if |data| >= STRIPE {
      var l;
      l, p := Consume(Init(seed), data, 0);
      h := Converge(l);
      assert data[0..p] == data[..p];
    }
    r := Finalize(AddLength(h, |data|), data[p..], |data|);
    assert data[0..p] == data[..p];
    HashOf(data, seed, p, h);
  }

  /** What the hash is made of, for whoever knows how many bytes the whole stripes are. */
  lemma HashOf(data: seq<byte>, seed: bv64, p: nat, h: bv64)
    requires p <= |data| && p % STRIPE == 0 && |data| - p < STRIPE
    requires |data| >= STRIPE ==> h == Converge(LanesOf(seed, data[..p]))
    requires |data| < STRIPE ==> h == Short(seed)
    ensures Hash(data, seed) == Avalanche(Tail(AddLength(h, |data|), data[p..]))
  {
    hide LanesOf, Converge, Avalanche, Tail, AddLength, Short;
    WholeStripes(|data|, p);
  }

  lemma WholeStripes(n: nat, p: nat)
    requires p <= n && p % STRIPE == 0 && n - p < STRIPE
    ensures p == n - n % STRIPE
  {
  }

  // --------------------------------------------------------------------- stream

  /** XXH64_state_t; the ghost field is all the data so far. */
  class State {
    var totalLen: nat
    var v1: bv64
    var v2: bv64
    var v3: bv64
    var v4: bv64
    const mem64: array<byte>
    var memsize: nat
    ghost var seed: bv64
    ghost var data: seq<byte>

    ghost predicate Valid()
      reads this, mem64
    {
      Buffered() && Counted(|data|)
    }

    /** The lanes hold the whole stripes of the data, and the buffer what comes behind them. */
    ghost predicate Buffered()
      reads `memsize, `data, `seed, `v1, `v2, `v3, `v4, mem64
    {
      && mem64.Length == STRIPE && memsize < STRIPE && memsize <= |data| && (|data| - memsize) % STRIPE == 0
      && mem64[..memsize] == data[|data| - memsize..]
      && CurrentLanes() == LanesOf(seed, data[..|data| - memsize])
    }

    /** The length is kept in 64 bits. */
    ghost predicate Counted(n: nat)
      reads `totalLen
    {
      totalLen == Low64(n)
    }

    ghost function CurrentLanes(): Lanes
      reads `v1, `v2, `v3, `v4
    {
      Lanes(v1, v2, v3, v4)
    }

    /** XXH64_createState and XXH64_reset. */
    constructor (seed: bv64)
      ensures Valid() && data == [] && this.seed == seed && fresh(mem64)
    {
      hide Round, Word, Stripe, Stripes;
      totalLen, memsize := 0, 0;
      v1, v2, v3, v4 := seed + PRIME64_1 + PRIME64_2, seed + PRIME64_2, seed + 0, seed - PRIME64_1;
      mem64 := new byte[STRIPE];
      this.seed, data := seed, [];
      new;
      NoLanes(seed);
    }

    /** XXH64_reset. */
    method Reset(seed: bv64)
      requires Valid()
      modifies this
      ensures Valid() && data == [] && this.seed == seed
    {
      hide Round, Word, Stripe, Stripes, LanesOf;
      totalLen, memsize := 0, 0;
      v1, v2, v3, v4 := seed + PRIME64_1 + PRIME64_2, seed + PRIME64_2, seed + 0, seed - PRIME64_1;
      this.seed, data := seed, [];
      NoLanes(seed);
    }

    /** XXH64_update. */
    method Update(input: seq<byte>)
      requires Valid()
      modifies this, mem64
      ensures Valid() && data == old(data) + input && seed == old(seed)
    {
      hide *;
      ValidParts();
      ghost var d := data;
      Count(|input|, |d|);
      if memsize + |input| < STRIPE {
        Store(input);
      } else {
        var p := 0;
        if memsize > 0 {
          p := STRIPE - memsize;
          FillStripe(input[..p]);
        }
        assert data == d + input[..p];
        if p + STRIPE <= |input| {
          ghost var p0 := p;
          p := TakeStripes(input, p);
          assert input[..p0] + input[p0..p] == input[..p];
        }
        assert data == d + input[..p];
        if p < |input| {
          Store(input[p..]);
        }
        assert input[..p] + input[p..] == input;
      }
      PartsValid();
    }

    lemma ValidParts()
      requires Valid()
      ensures Buffered() && Counted(|data|) && mem64.Length == STRIPE && memsize < STRIPE
    {
    }

    lemma PartsValid()
      requires Buffered() && Counted(|data|)
      ensures Valid()
    {
    }

    method Count(n: nat, ghost before: nat)
      requires Counted(before)
      modifies `totalLen
      ensures Counted(before + n)
    {
      hide Low64;
      totalLen := Low64(totalLen + Low64(n));
      LengthsAdd(before, n);
    }

    /** memcpy into the buffer, behind what is there. */
    method Store(input: seq<byte>)
      requires Buffered() && memsize + |input| < STRIPE
      modifies `memsize, `data, mem64
      ensures Buffered() && data == old(data) + input
    {
      hide LanesOf, Stripes;
      ghost var d, whole := data, |data| - memsize;
      forall k | 0 <= k < |input| { mem64[memsize + k] := input[k]; }
      memsize, data := memsize + |input|, d + input;
      assert data[..whole] == d[..whole];
      assert data[whole..] == d[whole..] + input == mem64[..memsize];
    }

    /** memcpy of what the buffer lacks. */
    method Complete(input: seq<byte>)
      requires Buffered() && memsize > 0 && memsize + |input| == STRIPE
      modifies `data, mem64
      ensures data == old(data) + input
      ensures var whole := |old(data)| - memsize;
              data[..whole] == old(data)[..whole] && data[whole..] == mem64[..]
    {
      hide LanesOf, Stripes;
      ghost var d, whole := data, |data| - memsize;
      forall k | 0 <= k < |input| { mem64[memsize + k] := input[k]; }
      data := d + input;
      assert data[..whole] == d[..whole];
      assert data[whole..] == d[whole..] + input == mem64[..];
    }

    /** Completes the stripe in the buffer and takes it. */
    method FillStripe(input: seq<byte>)
      requires Buffered() && memsize > 0 && memsize + |input| == STRIPE
      modifies `v1, `v2, `v3, `v4, `memsize, `data, mem64
      ensures Buffered() && data == old(data) + input && memsize == 0
    {
      hide LanesOf, Stripes, Round, Word;
      ghost var d, whole := data, |data| - memsize;
      Complete(input);
      var x := mem64[..];
      OneMore(seed, data, whole);
      v1 := Round(v1, Word(x, 0));
      v2 := Round(v2, Word(x, 8));
      v3 := Round(v3, Word(x, 16));
      v4 := Round(v4, Word(x, 24));
      memsize := 0;
      assert data[..|data|] == data;
    }

    /** The loop over the whole stripes of the input itself. */
    method TakeStripes(input: seq<byte>, p0: nat) returns (p: nat)
      requires Buffered() && memsize == 0 && p0 + STRIPE <= |input|
      modifies `v1, `v2, `v3, `v4, `data
      ensures p0 < p <= |input| && |input| - p < STRIPE
      ensures Buffered() && data == old(data) + input[p0..p] && memsize == 0
    {
      hide LanesOf, Stripes, Stripe;
      ghost var d := data;
      assert d[..|d|] == d;
      var l;
      l, p := Consume(Lanes(v1, v2, v3, v4), input, p0);
      v1, v2, v3, v4 := l.v1, l.v2, l.v3, l.v4;
      data := d + input[p0..p];
      MoreStripes(seed, d, input[p0..p]);
      assert data[..|data|] == data;
    }

    /** XXH64_digest: the hash of all the data, which the state is left ready to add to. */
    method Digest() returns (r: bv64)
      requires Valid() && |data| < U64
      ensures r == Hash(data, seed)
    {
      hide *;
      var h := if totalLen >= STRIPE then Converge(Lanes(v1, v2, v3, v4)) else Short(v3);
      DigestIsHash(h);
      r := Finalize(AddLength(h, totalLen), mem64[..memsize], totalLen);
    }

    lemma DigestIsHash(h: bv64)
      requires Valid() && |data| < U64
      requires h == if totalLen >= STRIPE then Converge(Lanes(v1, v2, v3, v4)) else Short(v3)
      ensures memsize <= mem64.Length && totalLen % STRIPE == memsize
      ensures Avalanche(Tail(AddLength(h, totalLen), mem64[..memsize])) == Hash(data, seed)
    {
      hide Avalanche, Tail, LanesOf, Hash, Converge, Short, AddLength, Low64;
      if totalLen < STRIPE { FewLanes(seed, data[..|data| - memsize]); }
      LengthWraps(h, |data|);
      HashOf(data, seed, |data| - memsize, h);
    }
  }

  lemma LengthsAdd(a: nat, b: nat)
    ensures Low64(Low64(a) + Low64(b)) == Low64(a + b)
  {
    assert (a + b) - (a % U64 + b % U64) == (a / U64 + b / U64) * U64;
    ModOf(a % U64 + b % U64, a / U64 + b / U64);
  }

  lemma ModOf(r: nat, q: nat)
    ensures (q * U64 + r) % U64 == r % U64
  {
  }

  lemma LengthWraps(h: bv64, n: nat)
    ensures AddLength(h, Low64(n)) == AddLength(h, n)
  {
    hide Plus, Length, Low64;
    LengthOfLow(n);
  }

  lemma LengthOfLow(n: nat)
    ensures Length(Low64(n)) == Length(n)
  {
    hide Low64;
    assert Low64(Low64(n)) == Low64(n);
  }

  lemma NoLanes(seed: bv64)
    ensures LanesOf(seed, []) == Init(seed)
  {
    hide Init, Stripe;
  }

  lemma FewLanes(seed: bv64, s: seq<byte>)
    requires |s| < STRIPE
    ensures LanesOf(seed, s).v3 == seed
  {
    hide Stripe, Round;
  }

  lemma OneMore(seed: bv64, s: seq<byte>, whole: nat)
    requires whole % STRIPE == 0 && whole + STRIPE == |s|
    ensures LanesOf(seed, s) == Stripe(LanesOf(seed, s[..whole]), s[whole..])
  {
    hide Stripe, Init, Stripes;
    OneStripe(Init(seed), s, whole);
    assert s[..|s|] == s && s[whole..|s|] == s[whole..];
  }

  lemma MoreStripes(seed: bv64, a: seq<byte>, b: seq<byte>)
    requires |a| % STRIPE == 0
    ensures LanesOf(seed, a + b) == Stripes(Stripe, STRIPE, LanesOf(seed, a), b)
  {
    hide Stripe, Init, Stripes;
    StripesSplit(Stripe, STRIPE, Init(seed), a, b);
  }

  /** Any number of updates, of any sizes, then a digest: the one-shot hash of all the pieces. */
  method Stream(pieces: seq<seq<byte>>, seed: bv64) returns (r: bv64)
    requires |Concat(pieces)| < U64
    ensures r == Hash(Concat(pieces), seed)
  {
    hide Hash, LanesOf, Stripes, Stripe, Avalanche, Tail, Round, Word;
    var state := new State(seed);
    var i := 0;
    while i < |pieces|
      invariant i <= |pieces| && state.Valid() && fresh(state) && fresh(state.mem64)
      invariant state.seed == seed && state.data == Concat(pieces[..i])
    {
      state.Update(pieces[i]);
      assert pieces[..i + 1][..i] == pieces[..i];
      i := i + 1;
    }
    assert pieces[..|pieces|] == pieces;
    r := state.Digest();
  }
}
