/** Input taken in stripes of a fixed size, by any function that folds a stripe into lanes. */
module XxStripes {
  import opened Lz4Format

  /** The lanes after all whole stripes of s. */
  function Stripes<L>(step: (L, seq<byte>) -> L, size: nat, lanes: L, s: seq<byte>): L
    requires size > 0
    decreases |s|
  {
    if |s| < size then lanes else Stripes(step, size, step(lanes, s[..size]), s[size..])
  }

  /** Taking a whole number of stripes first does not matter. */
  lemma {:induction false} StripesSplit<L>(step: (L, seq<byte>) -> L, size: nat, lanes: L, a: seq<byte>, b: seq<byte>)
    requires size > 0 && |a| % size == 0
    ensures Stripes(step, size, lanes, a + b) == Stripes(step, size, Stripes(step, size, lanes, a), b)
    decreases |a|
  {
    if |a| < size {
      SmallMod(|a|, size);
      assert a + b == b;
    } else {
      assert (a + b)[..size] == a[..size] && (a + b)[size..] == a[size..] + b;
      LessMod(|a|, size);
      StripesSplit(step, size, step(lanes, a[..size]), a[size..], b);
    }
  }

  function Concat(pieces: seq<seq<byte>>): seq<byte> {
    if pieces == [] then [] else Concat(pieces[..|pieces| - 1]) + pieces[|pieces| - 1]
  }

  lemma SmallMod(n: nat, size: nat)
    requires n < size && n % size == 0
    ensures n == 0
  {
  }

  lemma LessMod(n: nat, size: nat)
    requires 0 < size <= n
    ensures (n - size) % size == n % size
  {
    var q, r := (n - size) / size, (n - size) % size;
    var d := n / size - (q + 1);
    assert n - size == q * size + r && n == n / size * size + n % size;
    assert d * size == r - n % size;
  }

  lemma StripesNone<L>(step: (L, seq<byte>) -> L, size: nat, lanes: L, s: seq<byte>)
    requires |s| < size
    ensures Stripes(step, size, lanes, s) == lanes
  {
  }

  lemma StripesOne<L>(step: (L, seq<byte>) -> L, size: nat, lanes: L, s: seq<byte>)
    requires 0 < size == |s|
    ensures Stripes(step, size, lanes, s) == step(lanes, s)
  {
    assert s[..size] == s;
    StripesNone(step, size, step(lanes, s), s[size..]);
  }
}

/** XXH32: the one-shot hash and the streaming state agree. */
module XxHash32 {
  import opened Lz4Format
  import opened XxStripes

  const PRIME32_1: bv32 := 2654435761
  const PRIME32_2: bv32 := 2246822519
  const PRIME32_3: bv32 := 3266489917
  const PRIME32_4: bv32 := 668265263
  const PRIME32_5: bv32 := 374761393

  const STRIPE := 16

  datatype Lanes = Lanes(v1: bv32, v2: bv32, v3: bv32, v4: bv32)

  // ------------------------------------------------------------------- rounds

  function Times(a: bv32, b: bv32): bv32 { a * b }

  function Plus(a: bv32, b: bv32): bv32 { a + b }

  function Round(seed: bv32, input: bv32): bv32 {
    Times(Plus(seed, Times(input, PRIME32_2)).RotateLeft(13), PRIME32_1)
  }

  function Avalanche(h: bv32): bv32 {
    var a := Times(h ^ (h >> 15), PRIME32_2);
    var b := Times(a ^ (a >> 13), PRIME32_3);
    b ^ (b >> 16)
  }

  /** Four bytes, the lowest first. */
  function Four(a: bv32, b: bv32, c: bv32, d: bv32): bv32 { a | (b << 8) | (c << 16) | (d << 24) }

  /** XXH_readLE32. */
  function Word(s: seq<byte>, i: nat): bv32
    requires i + 4 <= |s|
  {
    Four(s[i] as bv32, s[i + 1] as bv32, s[i + 2] as bv32, s[i + 3] as bv32)
  }

  /** A length truncated to 32 bits. */
  function Low32(n: nat): (r: nat)
    ensures r < U32 && (n < U32 ==> r == n)
  {
    n % U32
  }

  function Length(n: nat): bv32 { Low32(n) as bv32 }

  function Init(seed: bv32): Lanes {
    Lanes(seed + PRIME32_1 + PRIME32_2, seed + PRIME32_2, seed + 0, seed - PRIME32_1)
  }

  function Stripe(l: Lanes, s: seq<byte>): Lanes {
    if |s| != STRIPE then l
    else Lanes(Round(l.v1, Word(s, 0)), Round(l.v2, Word(s, 4)), Round(l.v3, Word(s, 8)), Round(l.v4, Word(s, 12)))
  }

  /** The lanes after the whole stripes of s. */
  function LanesOf(seed: bv32, s: seq<byte>): Lanes {
    Stripes(Stripe, STRIPE, Init(seed), s)
  }

  /** The start of a hash without a whole stripe. */
  function Short(seed: bv32): bv32 { seed + PRIME32_5 }

  function AddLength(h: bv32, n: nat): bv32 { Plus(h, Length(n)) }

  function Converge(l: Lanes): bv32 {
    Plus(Plus(Plus(l.v1.RotateLeft(1), l.v2.RotateLeft(7)), l.v3.RotateLeft(12)), l.v4.RotateLeft(18))
  }

  function Step4(h: bv32, w: bv32): bv32 {
    Times(Plus(h, Times(w, PRIME32_3)).RotateLeft(17), PRIME32_4)
  }

  function Step1(h: bv32, b: byte): bv32 {
    Times(Plus(h, Times(b as bv32, PRIME32_5)).RotateLeft(11), PRIME32_1)
  }

  // ---------------------------------------------------------------- the hash

  /** What is left after the stripes: words of four bytes, then bytes. */
  function Tail(h: bv32, s: seq<byte>): bv32
    decreases |s|
  {
    if |s| >= 4 then Tail(Step4(h, Word(s, 0)), s[4..])
    else if |s| > 0 then Tail(Step1(h, s[0]), s[1..])
    else h
  }

  /** The hash of all the data. */
  function Hash(data: seq<byte>, seed: bv32): bv32 {
    var whole := |data| - |data| % STRIPE;
    var h := if |data| >= STRIPE then Converge(LanesOf(seed, data[..whole])) else Short(seed);
    Avalanche(Tail(AddLength(h, |data|), data[whole..]))
  }

  method Process4(h: bv32, s: seq<byte>, p: nat) returns (h': bv32, p': nat)
    requires p + 4 <= |s|
    ensures p' == p + 4 && Tail(h', s[p'..]) == Tail(h, s[p..])
  {
    hide Step4, Word;
    h', p' := Step4(h, Word(s, p)), p + 4;
    assert s[p..][4..] == s[p'..];
    WordOf(s, p);
  }

  lemma WordOf(s: seq<byte>, p: nat)
    requires p + 4 <= |s|
    ensures Word(s, p) == Word(s[p..], 0)
  {
  }

  method Process1(h: bv32, s: seq<byte>, p: nat) returns (h': bv32, p': nat)
    requires p < |s| < p + 4
    ensures p' == p + 1 && Tail(h', s[p'..]) == Tail(h, s[p..])
  {
    hide Step1;
    h', p' := Step1(h, s[p]), p + 1;
    assert s[p..][1..] == s[p'..];
  }

  /** XXH32_finalize: the switch with its fall-throughs. */
  method Finalize(h0: bv32, s: seq<byte>, total: nat) returns (r: bv32)
    requires |s| == total % STRIPE
    ensures r == Avalanche(Tail(h0, s))
  {
    hide Avalanche, Step1, Step4, Word, Tail;
    var h, p, len := h0, 0, total % STRIPE;
    assert s[0..] == s;
    if len in {12, 8, 4} {
      if len == 12 { h, p := Process4(h, s, p); }
      if len >= 8 { h, p := Process4(h, s, p); }
      h, p := Process4(h, s, p);
    } else if len in {13, 9, 5} {
      if len == 13 { h, p := Process4(h, s, p); }
      if len >= 9 { h, p := Process4(h, s, p); }
      h, p := Process4(h, s, p);
      h, p := Process1(h, s, p);
    } else if len in {14, 10, 6} {
      if len == 14 { h, p := Process4(h, s, p); }
      if len >= 10 { h, p := Process4(h, s, p); }
      h, p := Process4(h, s, p);
      h, p := Process1(h, s, p);
      h, p := Process1(h, s, p);
    } else {
      if len == 15 { h, p := Process4(h, s, p); }
      if len >= 11 { h, p := Process4(h, s, p); }
      if len >= 7 { h, p := Process4(h, s, p); }
      if len >= 3 { h, p := Process1(h, s, p); }
      if len >= 2 { h, p := Process1(h, s, p); }
      if len >= 1 { h, p := Process1(h, s, p); }
    }
    TailEnd(h, s, p);
    r := Avalanche(h);
  }

  lemma TailEnd(h: bv32, s: seq<byte>, p: nat)
    requires p == |s|
    ensures Tail(h, s[p..]) == h
  {
  }

  /** One stripe more: the lanes of the first p bytes become those of the first p + 16. */
  lemma OneStripe(l: Lanes, s: seq<byte>, p: nat)
    requires p % STRIPE == 0 && p + STRIPE <= |s|
    ensures Stripes(Stripe, STRIPE, l, s[..p + STRIPE])
         == Stripe(Stripes(Stripe, STRIPE, l, s[..p]), s[p..p + STRIPE])
  {
    hide Stripe, Stripes;
    StripesSplit(Stripe, STRIPE, l, s[..p], s[p..p + STRIPE]);
    assert s[..p] + s[p..p + STRIPE] == s[..p + STRIPE];
    StripesOne(Stripe, STRIPE, Stripes(Stripe, STRIPE, l, s[..p]), s[p..p + STRIPE]);
  }

  /** The loop of the one-shot hash and of an update: all whole stripes of s from p0 on. */
  method Consume(l0: Lanes, s: seq<byte>, p0: nat) returns (l: Lanes, p: nat)
    requires p0 + STRIPE <= |s|
    ensures p0 < p <= |s| && (p - p0) % STRIPE == 0 && |s| - p < STRIPE
    ensures l == Stripes(Stripe, STRIPE, l0, s[p0..p])
  {
    hide Round, Word, Stripes, Init;
    var v1, v2, v3, v4 := l0.v1, l0.v2, l0.v3, l0.v4;
    ghost var t := s[p0..];
    p := p0;
    StripesNone(Stripe, STRIPE, l0, t[..0]);
    assert t[..0] == [];
    while p + STRIPE <= |s|
      invariant p0 <= p <= |s| && (p - p0) % STRIPE == 0
      invariant Lanes(v1, v2, v3, v4) == Stripes(Stripe, STRIPE, l0, t[..p - p0])
    {
      OneStripe(l0, t, p - p0);
      StripeWords(s, p);
      assert t[p - p0..p - p0 + STRIPE] == s[p..p + STRIPE];
      v1 := Round(v1, Word(s, p));
      v2 := Round(v2, Word(s, p + 4));
      v3 := Round(v3, Word(s, p + 8));
      v4 := Round(v4, Word(s, p + 12));
      p := p + STRIPE;
    }
    l := Lanes(v1, v2, v3, v4);
    assert t[..p - p0] == s[p0..p];
  }

  lemma StripeWords(s: seq<byte>, p: nat)
    requires p + STRIPE <= |s|
    ensures var x := s[p..p + STRIPE];
            && Word(x, 0) == Word(s, p) && Word(x, 4) == Word(s, p + 4)
            && Word(x, 8) == Word(s, p + 8) && Word(x, 12) == Word(s, p + 12)
  {
    hide Word;
    var x := s[p..p + STRIPE];
    WordWithin(s, p, x, 0);
    WordWithin(s, p, x, 4);
    WordWithin(s, p, x, 8);
    WordWithin(s, p, x, 12);
  }

  lemma WordWithin(s: seq<byte>, p: nat, x: seq<byte>, k: nat)
    requires p + |x| <= |s| && x == s[p..p + |x|] && k + 4 <= |x|
    ensures Word(x, k) == Word(s, p + k)
  {
    assert x[k] == s[p + k] && x[k + 1] == s[p + k + 1] && x[k + 2] == s[p + k + 2] && x[k + 3] == s[p + k + 3];
  }

  /** XXH32_endian_align: the one-shot hash. */
  method XXH32(data: seq<byte>, seed: bv32) returns (r: bv32)
    ensures r == Hash(data, seed)
  {
    hide Hash, Init, Stripe, Stripes, Converge, Short, AddLength, Avalanche, Tail;
    var h, p := Short(seed), 0;
    if |data| >= STRIPE {
      var l;
      l, p := Consume(Init(seed), data, 0);
      h := Converge(l);
      assert data[0..p] == data[..p];
    }
    r := Finalize(AddLength(h, |data|), data[p..], |data|);
    assert data[0..p] == data[..p];
    HashOf(data, seed, p, h);
  }

  /** What the hash is made of, for whoever knows how many bytes the whole stripes are. */
  lemma HashOf(data: seq<byte>, seed: bv32, p: nat, h: bv32)
    requires p <= |data| && p % STRIPE == 0 && |data| - p < STRIPE
    requires |data| >= STRIPE ==> h == Converge(LanesOf(seed, data[..p]))
    requires |data| < STRIPE ==> h == Short(seed)
    ensures Hash(data, seed) == Avalanche(Tail(AddLength(h, |data|), data[p..]))
  {
    hide LanesOf, Converge, Avalanche, Tail, AddLength, Short;
    WholeStripes(|data|, p);
  }

  lemma WholeStripes(n: nat, p: nat)
    requires p <= n && p % STRIPE == 0 && n - p < STRIPE
    ensures p == n - n % STRIPE
  {
  }

  // --------------------------------------------------------------------- stream

  /** XXH32_state_t; the ghost field is all the data so far. */
  class State {
    var totalLen32: nat
    var largeLen: bool
    var v1: bv32
    var v2: bv32
    var v3: bv32
    var v4: bv32
    const mem32: array<byte>
    var memsize: nat
    ghost var seed: bv32
    ghost var data: seq<byte>

    ghost predicate Valid()
      reads this, mem32
    {
      Buffered() && Counted(|data|)
    }

    /** The lanes hold the whole stripes of the data, and the buffer what comes behind them. */
    ghost predicate Buffered()
      reads `memsize, `data, `seed, `v1, `v2, `v3, `v4, mem32
    {
      && mem32.Length == STRIPE && memsize < STRIPE && memsize <= |data| && (|data| - memsize) % STRIPE == 0
      && mem32[..memsize] == data[|data| - memsize..]
      && CurrentLanes() == LanesOf(seed, data[..|data| - memsize])
    }

    /** The length is kept in 32 bits, and whether it ever was a stripe is kept apart. */
    ghost predicate Counted(n: nat)
      reads `totalLen32, `largeLen
    {
      totalLen32 == Low32(n) && (largeLen <==> n >= STRIPE)
    }

    ghost function CurrentLanes(): Lanes
      reads `v1, `v2, `v3, `v4
    {
      Lanes(v1, v2, v3, v4)
    }

    /** XXH32_createState and XXH32_reset. */
    constructor (seed: bv32)
      ensures Valid() && data == [] && this.seed == seed && fresh(mem32)
    {
      hide Round, Word, Stripe, Stripes;
      totalLen32, largeLen, memsize := 0, false, 0;
      v1, v2, v3, v4 := seed + PRIME32_1 + PRIME32_2, seed + PRIME32_2, seed + 0, seed - PRIME32_1;
      mem32 := new byte[STRIPE];
      this.seed, data := seed, [];
      new;
      NoLanes(seed);
    }

    /** XXH32_reset. */
    method Reset(seed: bv32)
      requires Valid()
      modifies this
      ensures Valid() && data == [] && this.seed == seed
    {
      hide Round, Word, Stripe, Stripes, LanesOf;
      totalLen32, largeLen, memsize := 0, false, 0;
      v1, v2, v3, v4 := seed + PRIME32_1 + PRIME32_2, seed + PRIME32_2, seed + 0, seed - PRIME32_1;
      this.seed, data := seed, [];
      NoLanes(seed);
    }

    /** XXH32_update. */
    method Update(input: seq<byte>)
      requires Valid()
      modifies this, mem32
      ensures Valid() && data == old(data) + input && seed == old(seed)
    {
      hide *;
      ValidParts();
      ghost var d := data;
      Count(|input|, |d|);
      if memsize + |input| < STRIPE {
        Store(input);
      } else {
        var p := 0;
        if memsize > 0 {
          p := STRIPE - memsize;
          FillStripe(input[..p]);
        }
        assert data == d + input[..p];
        if p + STRIPE <= |input| {
          ghost var p0 := p;
          p := TakeStripes(input, p);
          assert input[..p0] + input[p0..p] == input[..p];
        }
        assert data == d + input[..p];
        if p < |input| {
          Store(input[p..]);
        }
        assert input[..p] + input[p..] == input;
      }
      PartsValid();
    }

    lemma ValidParts()
      requires Valid()
      ensures Buffered() && Counted(|data|) && mem32.Length == STRIPE && memsize < STRIPE
    {
    }

    lemma PartsValid()
      requires Buffered() && Counted(|data|)
      ensures Valid()
    {
    }

    method Count(n: nat, ghost before: nat)
      requires Counted(before)
      modifies `totalLen32, `largeLen
      ensures Counted(before + n)
    {
      hide Low32;
      totalLen32 := Low32(totalLen32 + Low32(n));
      LengthsAdd(before, n);
      largeLen := largeLen || n >= STRIPE || totalLen32 >= STRIPE;
    }

    /** memcpy into the buffer, behind what is there. */
    method Store(input: seq<byte>)
      requires Buffered() && memsize + |input| < STRIPE
      modifies `memsize, `data, mem32
      ensures Buffered() && data == old(data) + input
    {
      hide LanesOf, Stripes;
      ghost var d, whole := data, |data| - memsize;
      forall k | 0 <= k < |input| { mem32[memsize + k] := input[k]; }
      memsize, data := memsize + |input|, d + input;
      assert data[..whole] == d[..whole];
      assert data[whole..] == d[whole..] + input == mem32[..memsize];
    }

    /** memcpy of what the buffer lacks. */
    method Complete(input: seq<byte>)
      requires Buffered() && memsize > 0 && memsize + |input| == STRIPE
      modifies `data, mem32
      ensures data == old(data) + input
      ensures var whole := |old(data)| - memsize;
              data[..whole] == old(data)[..whole] && data[whole..] == mem32[..]
    {
      hide LanesOf, Stripes;
      ghost var d, whole := data, |data| - memsize;
      forall k | 0 <= k < |input| { mem32[memsize + k] := input[k]; }
      data := d + input;
      assert data[..whole] == d[..whole];
      assert data[whole..] == d[whole..] + input == mem32[..];
    }

    /** Completes the stripe in the buffer and takes it. */
    method FillStripe(input: seq<byte>)
      requires Buffered() && memsize > 0 && memsize + |input| == STRIPE
      modifies `v1, `v2, `v3, `v4, `memsize, `data, mem32
      ensures Buffered() && data == old(data) + input && memsize == 0
    {
      hide LanesOf, Stripes, Round, Word;
      ghost var d, whole := data, |data| - memsize;
      Complete(input);
      var x := mem32[..];
      OneMore(seed, data, whole);
      v1 := Round(v1, Word(x, 0));
      v2 := Round(v2, Word(x, 4));
      v3 := Round(v3, Word(x, 8));
      v4 := Round(v4, Word(x, 12));
      memsize := 0;
      assert data[..|data|] == data;
    }

    /** The loop over the whole stripes of the input itself. */
    method TakeStripes(input: seq<byte>, p0: nat) returns (p: nat)
      requires Buffered() && memsize == 0 && p0 + STRIPE <= |input|
      modifies `v1, `v2, `v3, `v4, `data
      ensures p0 < p <= |input| && |input| - p < STRIPE
      ensures Buffered() && data == old(data) + input[p0..p] && memsize == 0
    {
      hide LanesOf, Stripes, Stripe;
      ghost var d := data;
      assert d[..|d|] == d;
      var l;
      l, p := Consume(Lanes(v1, v2, v3, v4), input, p0);
      v1, v2, v3, v4 := l.v1, l.v2, l.v3, l.v4;
      data := d + input[p0..p];
      MoreStripes(seed, d, input[p0..p]);
      assert data[..|data|] == data;
    }

    /** XXH32_digest: the hash of all the data, which the state is left ready to add to. */
    method Digest() returns (r: bv32)
      requires Valid()
      ensures r == Hash(data, seed)
    {
      hide *;
      var h := if largeLen then Converge(Lanes(v1, v2, v3, v4)) else Short(v3);
      DigestIsHash(h);
      r := Finalize(AddLength(h, totalLen32), mem32[..memsize], memsize);
    }

    lemma DigestIsHash(h: bv32)
      requires Valid()
      requires h == if largeLen then Converge(Lanes(v1, v2, v3, v4)) else Short(v3)
      ensures memsize <= mem32.Length && memsize % STRIPE == memsize
      ensures Avalanche(Tail(AddLength(h, totalLen32), mem32[..memsize])) == Hash(data, seed)
    {
      hide Avalanche, Tail, LanesOf, Hash, Converge, Short, AddLength, Low32;
      if !largeLen { FewLanes(seed, data[..|data| - memsize]); }
      LengthWraps(h, |data|);
      HashOf(data, seed, |data| - memsize, h);
    }
  }

  lemma LengthsAdd(a: nat, b: nat)
    ensures Low32(Low32(a) + Low32(b)) == Low32(a + b)
  {
    assert (a + b) - (a % U32 + b % U32) == (a / U32 + b / U32) * U32;
    ModOf(a % U32 + b % U32, a / U32 + b / U32);
  }

  lemma ModOf(r: nat, q: nat)
    ensures (q * U32 + r) % U32 == r % U32
  {
  }

  lemma LengthWraps(h: bv32, n: nat)
    ensures AddLength(h, Low32(n)) == AddLength(h, n)
  {
    hide Plus, Length, Low32;
    LengthOfLow(n);
  }

  lemma LengthOfLow(n: nat)
    ensures Length(Low32(n)) == Length(n)
  {
    hide Low32;
    assert Low32(Low32(n)) == Low32(n);
  }

  lemma NoLanes(seed: bv32)
    ensures LanesOf(seed, []) == Init(seed)
  {
    hide Init, Stripe;
  }

  lemma FewLanes(seed: bv32, s: seq<byte>)
    requires |s| < STRIPE
    ensures LanesOf(seed, s).v3 == seed
  {
    hide Stripe, Round;
  }

  lemma OneMore(seed: bv32, s: seq<byte>, whole: nat)
    requires whole % STRIPE == 0 && whole + STRIPE == |s|
    ensures LanesOf(seed, s) == Stripe(LanesOf(seed, s[..whole]), s[whole..])
  {
    hide Stripe, Init, Stripes;
    OneStripe(Init(seed), s, whole);
    assert s[..|s|] == s && s[whole..|s|] == s[whole..];
  }

  lemma MoreStripes(seed: bv32, a: seq<byte>, b: seq<byte>)
    requires |a| % STRIPE == 0
    ensures LanesOf(seed, a + b) == Stripes(Stripe, STRIPE, LanesOf(seed, a), b)
  {
    hide Stripe, Init, Stripes;
    StripesSplit(Stripe, STRIPE, Init(seed), a, b);
  }

  /** Any number of updates, of any sizes, then a digest: the one-shot hash of all the pieces. */
  method Stream(pieces: seq<seq<byte>>, seed: bv32) returns (r: bv32)
    ensures r == Hash(Concat(pieces), seed)
  {
    hide Hash, LanesOf, Stripes, Stripe, Avalanche, Tail, Round, Word;
    var state := new State(seed);
    var i := 0;
    while i < |pieces|
      invariant i <= |pieces| && state.Valid() && fresh(state) && fresh(state.mem32)
      invariant state.seed == seed && state.data == Concat(pieces[..i])
    {
      state.Update(pieces[i]);
      assert pieces[..i + 1][..i] == pieces[..i];
      i := i + 1;
    }
    assert pieces[..|pieces|] == pieces;
    r := state.Digest();
  }
}
