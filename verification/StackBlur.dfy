/** The horizontal pass of the stack blur: running sums over a circular stack of pixels. */
module StackBlur {
  import opened Lz4Format
  import opened Triangle

  // ---------------------------------------------------------------- the ring

  /** One channel of the stack of div pixels. */
  function Held(stack: seq<int>, ch: nat, div: nat): (s: seq<int>)
    requires |stack| == 4 * div && ch < 4
    ensures |s| == div
  {
    seq(div, k requires 0 <= k < div => stack[4 * k + ch])
  }

  /** The place, relative to the middle, that slot k holds when the middle is in slot sp. */
  function Off(k: int, sp: int, r: nat): int {
    if k - sp > r then k - sp - (2 * r + 1)
    else if k - sp < 0 - r then k - sp + (2 * r + 1)
    else k - sp
  }

  /** The stack holds the window around x. */
  predicate Ring(held: seq<int>, v: seq<int>, x: int, r: nat, sp: nat)
    requires v != []
  {
    |held| == 2 * r + 1 && sp < |held| && forall k :: 0 <= k < |held| ==> held[k] == C(v, x + Off(k, sp, r))
  }

  lemma Wrap(n: nat, div: nat)
    requires 0 < div && n < 2 * div
    ensures n % div == if n < div then n else n - div
  {
    if n < div {
      QuotientIs(n, div, 0, n);
    } else {
      QuotientIs(n, div, 1, n - div);
    }
  }

  /** The oldest value makes room for the one that comes in, and the window is the next one. */
  lemma RingTurns(held: seq<int>, v: seq<int>, x: int, r: nat, sp: nat, oldest: nat, next: nat)
    requires v != [] && Ring(held, v, x, r, sp)
    requires oldest == (sp + r + 1) % (2 * r + 1) && next == (sp + 1) % (2 * r + 1)
    ensures oldest < |held| && held[oldest] == C(v, x - r)
    ensures var held' := held[oldest := C(v, x + r + 1)];
            Ring(held', v, x + 1, r, next) && held'[next] == C(v, x + 1)
  {
    hide C;
    Wrap(sp + r + 1, 2 * r + 1);
    Wrap(sp + 1, 2 * r + 1);
    assert Off(oldest, sp, r) == 0 - r && Off(oldest, next, r) == r && Off(next, next, r) == 0;
    var held' := held[oldest := C(v, x + r + 1)];
    forall k | 0 <= k < |held| ensures held'[k] == C(v, x + 1 + Off(k, next, r)) {
      if k != oldest { assert Off(k, next, r) == Off(k, sp, r) - 1; }
    }
  }

  predicate SameHeld(before: seq<int>, after: seq<int>, ch: nat, div: nat)
    requires ch < 4
  {
    |before| == |after| == 4 * div && Held(before, ch, div) == Held(after, ch, div)
  }

  predicate OthersHeld(before: seq<int>, after: seq<int>, ch: nat, div: nat) {
    forall c: nat :: c < 4 && c != ch ==> SameHeld(before, after, c, div)
  }

  lemma HeldUpdated(before: seq<int>, after: seq<int>, ch: nat, slot: nat, value: int, div: nat)
    requires |before| == |after| == 4 * div && slot < div && ch < 4 && after == before[slot * 4 + ch := value]
    ensures Held(after, ch, div) == Held(before, ch, div)[slot := value]
    ensures Held(before, ch, div)[slot] == before[slot * 4 + ch]
    ensures OthersHeld(before, after, ch, div)
  {
    forall c: nat | c < 4 && c != ch ensures SameHeld(before, after, c, div) {
      assert Held(before, c, div) == Held(after, c, div);
    }
  }

  // ---------------------------------------------------------------- the sums

  /** rsum, rinsum and routsum, and so on. */
  datatype Sums = Sums(sum: int, inside: int, outside: int)

  /** The triangular sum, and the two halves of the window. */
  function At(v: seq<int>, x: int, r: nat): Sums
    requires v != []
  {
    Sums(Tri(v, x, r), Ahead(v, x, r), Back(v, x, r + 1))
  }

  predicate Lane(stack: seq<int>, ch: nat, v: seq<int>, x: int, r: nat, sp: nat, s: Sums)
    requires v != [] && ch < 4
  {
    |stack| == 4 * (2 * r + 1) && Ring(Held(stack, ch, 2 * r + 1), v, x, r, sp) && s == At(v, x, r)
  }

  /** What the loop over the window has summed up before place i. */
  predicate Summing(v: seq<int>, r: nat, i: int, s: Sums)
    requires v != [] && 0 - r <= i <= r + 1
  {
    && s.sum == Weighted(v, 0, r, 0 - r) - Weighted(v, 0, r, i)
    && s.inside == (if i > 0 then Ahead(v, 0, i - 1) else 0)
    && s.outside == Back(v, 0, r + 1) - (if i > 0 then 0 else Back(v, 0, 1 - i))
  }

  /** The loop over the window before place i, in one channel. */
  predicate Filling(stack: seq<int>, ch: nat, v: seq<int>, r: nat, i: int, s: Sums)
    requires v != [] && ch < 4 && 0 - r <= i <= r + 1
  {
    && |stack| == 4 * (2 * r + 1) && Summing(v, r, i, s)
    && FilledTo(Held(stack, ch, 2 * r + 1), v, r, i + r)
  }

  predicate FilledTo(held: seq<int>, v: seq<int>, r: nat, n: nat)
    requires v != []
  {
    forall k: nat :: k < n && k < |held| ==> held[k] == C(v, k - r)
  }

  lemma Filled(stack: seq<int>, ch: nat, v: seq<int>, r: nat, s: Sums)
    requires v != [] && ch < 4 && Filling(stack, ch, v, r, r + 1, s)
    ensures Lane(stack, ch, v, 0, r, r, s)
  {
    hide C, Tri, Weighted, Held;
    TriIsWeighted(v, 0, r);
    assert Weighted(v, 0, r, r + 1) == 0 by { PastEnd(v, r); }
    var held := Held(stack, ch, 2 * r + 1);
    forall k | 0 <= k < |held| ensures held[k] == C(v, 0 + Off(k, r, r)) {
      assert Off(k, r, r) == k - r;
    }
  }

  lemma PastEnd(v: seq<int>, r: nat)
    requires v != []
    ensures Weighted(v, 0, r, r + 1) == 0
  {
  }

  lemma FillingKept(before: seq<int>, after: seq<int>, ch: nat, v: seq<int>, r: nat, i: int, s: Sums, c: nat)
    requires v != [] && ch < 4 && 0 - r <= i <= r + 1 && c != ch && c < 4
    requires Filling(before, ch, v, r, i, s) && OthersHeld(before, after, c, 2 * r + 1)
    ensures Filling(after, ch, v, r, i, s)
  {
    hide Held;
    assert SameHeld(before, after, ch, 2 * r + 1);
  }

  lemma LaneKept(before: seq<int>, after: seq<int>, ch: nat, v: seq<int>, x: int, r: nat, sp: nat, s: Sums, c: nat)
    requires v != [] && ch < 4 && c != ch && c < 4
    requires Lane(before, ch, v, x, r, sp, s) && OthersHeld(before, after, c, 2 * r + 1)
    ensures Lane(after, ch, v, x, r, sp, s)
  {
    hide Held;
    assert SameHeld(before, after, ch, 2 * r + 1);
  }

  /** One place of the window, in one channel. */
  method Add(pixels: array<byte>, offset: nat, stack: array<int>, ch: nat, i: int, radius: nat, s: Sums,
             ghost v: seq<int>)
    returns (s': Sums)
    requires ch < 4 && offset + ch < pixels.Length && v != [] && pixels[offset + ch] == C(v, i)
    requires 0 - radius <= i <= radius && Filling(stack[..], ch, v, radius, i, s)
    modifies stack
    ensures Filling(stack[..], ch, v, radius, i + 1, s')
    ensures OthersHeld(old(stack[..]), stack[..], ch, 2 * radius + 1)
  {
    hide C, Held, OthersHeld, Weighted;
    ghost var before := stack[..];
    var slot := i + radius;
    var p := pixels[offset + ch];
    stack[slot * 4 + ch] := p;
    HeldUpdated(before, stack[..], ch, slot, p, 2 * radius + 1);
    var rbs := radius + 1 - (if i < 0 then 0 - i else i);
    OneWeight(v, radius, i);
    if i > 0 {
      s' := Sums(s.sum + p * rbs, s.inside + p, s.outside);
    } else {
      s' := Sums(s.sum + p * rbs, s.inside, s.outside + p);
      assert Back(v, 0, 1 - i) == Back(v, 0, 0 - i) + C(v, 0 + i);
    }
  }

  lemma OneWeight(v: seq<int>, r: nat, i: int)
    requires v != [] && i <= r
    ensures Weighted(v, 0, r, i) == C(v, i) * (r + 1 - (if i < 0 then 0 - i else i)) + Weighted(v, 0, r, i + 1)
  {
  }

  /** One step to the right, in one channel. */
  method Turn(pixels: array<byte>, offset: nat, stack: array<int>, start: nat, next: nat, ch: nat, s: Sums,
              ghost v: seq<int>, ghost x: int, ghost r: nat, ghost sp: nat)
    returns (s': Sums)
    requires ch < 4 && offset + ch < pixels.Length && v != [] && pixels[offset + ch] == C(v, x + r + 1)
    requires Lane(stack[..], ch, v, x, r, sp, s)
    requires start == (sp + r + 1) % (2 * r + 1) && next == (sp + 1) % (2 * r + 1)
    modifies stack
    ensures Lane(stack[..], ch, v, x + 1, r, next, s')
    ensures OthersHeld(old(stack[..]), stack[..], ch, 2 * r + 1)
  {
    hide C, Tri, Ahead, Back, Ring, Held, OthersHeld;
    ghost var before := stack[..];
    ghost var held := Held(before, ch, 2 * r + 1);
    RingTurns(held, v, x, r, sp, start, next);
    Turned(v, x, r);
    RingSize(held, v, x, r, sp);
    var sum := s.sum - s.outside;
    var outside := s.outside - stack[start * 4 + ch];
    stack[start * 4 + ch] := pixels[offset + ch];
    HeldUpdated(before, stack[..], ch, start, C(v, x + r + 1), 2 * r + 1);
    HeldAt(stack[..], ch, next, 2 * r + 1);
    var inside := s.inside + pixels[offset + ch];
    sum := sum + inside;
    outside := outside + stack[next * 4 + ch];
    inside := inside - stack[next * 4 + ch];
    s' := Sums(sum, inside, outside);
  }

  lemma HeldAt(stack: seq<int>, ch: nat, k: nat, div: nat)
    requires |stack| == 4 * div && ch < 4 && k < div
    ensures Held(stack, ch, div)[k] == stack[k * 4 + ch]
  {
  }

  lemma RingSize(held: seq<int>, v: seq<int>, x: int, r: nat, sp: nat)
    requires v != [] && Ring(held, v, x, r, sp)
    ensures |held| == 2 * r + 1 && sp < |held|
  {
  }

  lemma Turned(v: seq<int>, x: int, r: nat)
    requires v != []
    ensures Tri(v, x + 1, r) == Tri(v, x, r) - Back(v, x, r + 1) + (Ahead(v, x, r) + C(v, x + r + 1))
    ensures Back(v, x + 1, r + 1) == Back(v, x, r + 1) - C(v, x - r) + C(v, x + 1)
    ensures Ahead(v, x + 1, r) == Ahead(v, x, r) + C(v, x + r + 1) - C(v, x + 1)
  {
    hide C, Tri;
    TriMoves(v, x, r);
    BackMoves(v, x, r + 1);
    AheadMoves(v, x, r);
  }

  // ----------------------------------------------------------------- a row

  /** The four channels of a row. */
  predicate Lines(p: seq<byte>, at: nat, w: nat, v0: seq<int>, v1: seq<int>, v2: seq<int>, v3: seq<int>) {
    && w > 0 && at + 4 * w <= |p|
    && v0 == Chan(p, at, w, 0) && v1 == Chan(p, at, w, 1) && v2 == Chan(p, at, w, 2) && v3 == Chan(p, at, w, 3)
  }

  /** The bytes of the pixel that stands for place i. */
  lemma PixelAt(p: seq<byte>, at: nat, w: nat, i: int, v0: seq<int>, v1: seq<int>, v2: seq<int>, v3: seq<int>)
    requires Lines(p, at, w, v0, v1, v2, v3)
    ensures v0 != [] && v1 != [] && v2 != [] && v3 != []
    ensures var o := at + Clamp(i, w) * 4;
            && o + 3 < |p| && p[o] == C(v0, i) && p[o + 1] == C(v1, i) && p[o + 2] == C(v2, i) && p[o + 3] == C(v3, i)
  {
  }

  /** All four channels of the stack and their sums. */
  predicate Lanes(stack: seq<int>, v0: seq<int>, v1: seq<int>, v2: seq<int>, v3: seq<int>, x: int, r: nat, sp: nat,
                  s0: Sums, s1: Sums, s2: Sums, s3: Sums)
    requires v0 != [] && v1 != [] && v2 != [] && v3 != []
  {
    && Lane(stack, 0, v0, x, r, sp, s0) && Lane(stack, 1, v1, x, r, sp, s1)
    && Lane(stack, 2, v2, x, r, sp, s2) && Lane(stack, 3, v3, x, r, sp, s3)
  }

  /** The loop that fills the stack for a row. */
  method Window(pixels: array<byte>, at: nat, w: nat, radius: nat, stack: array<int>,
                ghost v0: seq<int>, ghost v1: seq<int>, ghost v2: seq<int>, ghost v3: seq<int>)
    returns (s0: Sums, s1: Sums, s2: Sums, s3: Sums)
    requires Lines(pixels[..], at, w, v0, v1, v2, v3) && stack.Length == 4 * (2 * radius + 1)
    modifies stack
    ensures v0 != [] && v1 != [] && v2 != [] && v3 != []
    ensures Lanes(stack[..], v0, v1, v2, v3, 0, radius, radius, s0, s1, s2, s3)
  {
    hide Lines, C, Filling, Held, OthersHeld, Lane, Clamp;
    s0, s1, s2, s3 := Sums(0, 0, 0), Sums(0, 0, 0), Sums(0, 0, 0), Sums(0, 0, 0);
    PixelAt(pixels[..], at, w, 0, v0, v1, v2, v3);
    NothingFilled(stack[..], 0, v0, radius);
    NothingFilled(stack[..], 1, v1, radius);
    NothingFilled(stack[..], 2, v2, radius);
    NothingFilled(stack[..], 3, v3, radius);
    var i := 0 - radius;
    while i <= radius
      invariant 0 - radius <= i <= radius + 1
      invariant Filling(stack[..], 0, v0, radius, i, s0) && Filling(stack[..], 1, v1, radius, i, s1)
      invariant Filling(stack[..], 2, v2, radius, i, s2) && Filling(stack[..], 3, v3, radius, i, s3)
    {
      s0, s1, s2, s3 := AddPixel(pixels, at, w, radius, stack, i, s0, s1, s2, s3, v0, v1, v2, v3);
      i := i + 1;
    }
    Filled(stack[..], 0, v0, radius, s0);
    Filled(stack[..], 1, v1, radius, s1);
    Filled(stack[..], 2, v2, radius, s2);
    Filled(stack[..], 3, v3, radius, s3);
  }

  lemma NothingFilled(stack: seq<int>, ch: nat, v: seq<int>, r: nat)
    requires v != [] && ch < 4 && |stack| == 4 * (2 * r + 1)
    ensures Filling(stack, ch, v, r, 0 - r, Sums(0, 0, 0))
  {
  }

  /** The body of that loop. */
  method AddPixel(pixels: array<byte>, at: nat, w: nat, radius: nat, stack: array<int>, i: int,
                  t0: Sums, t1: Sums, t2: Sums, t3: Sums,
                  ghost v0: seq<int>, ghost v1: seq<int>, ghost v2: seq<int>, ghost v3: seq<int>)
    returns (s0: Sums, s1: Sums, s2: Sums, s3: Sums)
    requires Lines(pixels[..], at, w, v0, v1, v2, v3) && 0 - radius <= i <= radius
    requires v0 != [] && v1 != [] && v2 != [] && v3 != []
    requires Filling(stack[..], 0, v0, radius, i, t0) && Filling(stack[..], 1, v1, radius, i, t1)
    requires Filling(stack[..], 2, v2, radius, i, t2) && Filling(stack[..], 3, v3, radius, i, t3)
    modifies stack
    ensures Filling(stack[..], 0, v0, radius, i + 1, s0) && Filling(stack[..], 1, v1, radius, i + 1, s1)
    ensures Filling(stack[..], 2, v2, radius, i + 1, s2) && Filling(stack[..], 3, v3, radius, i + 1, s3)
  {
    hide Lines, C, Filling, OthersHeld;
    PixelAt(pixels[..], at, w, i, v0, v1, v2, v3);
    var offset := at + Min(w - 1, Max(i, 0)) * 4;
    assert offset == at + Clamp(i, w) * 4;
    ghost var a := stack[..];
    s0 := Add(pixels, offset, stack, 0, i, radius, t0, v0);
    ghost var b := stack[..];
    FillingKept(a, b, 1, v1, radius, i, t1, 0);
    FillingKept(a, b, 2, v2, radius, i, t2, 0);
    FillingKept(a, b, 3, v3, radius, i, t3, 0);
    s1 := Add(pixels, offset, stack, 1, i, radius, t1, v1);
    ghost var c := stack[..];
    FillingKept(b, c, 0, v0, radius, i + 1, s0, 1);
    FillingKept(b, c, 2, v2, radius, i, t2, 1);
    FillingKept(b, c, 3, v3, radius, i, t3, 1);
    s2 := Add(pixels, offset, stack, 2, i, radius, t2, v2);
    ghost var d := stack[..];
    FillingKept(c, d, 0, v0, radius, i + 1, s0, 2);
    FillingKept(c, d, 1, v1, radius, i + 1, s1, 2);
    FillingKept(c, d, 3, v3, radius, i, t3, 2);
    s3 := Add(pixels, offset, stack, 3, i, radius, t3, v3);
    FillingKept(d, stack[..], 0, v0, radius, i + 1, s0, 3);
    FillingKept(d, stack[..], 1, v1, radius, i + 1, s1, 3);
    FillingKept(d, stack[..], 2, v2, radius, i + 1, s2, 3);
  }

  /** The sums and the stack move one place on. */
  method TurnPixel(pixels: array<byte>, at: nat, w: nat, radius: nat, stack: array<int>, pixel: nat, sp: nat,
                   t0: Sums, t1: Sums, t2: Sums, t3: Sums, ghost x: int,
                   ghost v0: seq<int>, ghost v1: seq<int>, ghost v2: seq<int>, ghost v3: seq<int>)
    returns (next: nat, s0: Sums, s1: Sums, s2: Sums, s3: Sums)
    requires Lines(pixels[..], at, w, v0, v1, v2, v3) && pixel == Clamp(x + radius + 1, w) && sp < 2 * radius + 1
    requires v0 != [] && v1 != [] && v2 != [] && v3 != []
    requires Lanes(stack[..], v0, v1, v2, v3, x, radius, sp, t0, t1, t2, t3)
    modifies stack
    ensures next < 2 * radius + 1 && Lanes(stack[..], v0, v1, v2, v3, x + 1, radius, next, s0, s1, s2, s3)
  {
    hide Lines, C, Lane, OthersHeld;
    var div := radius + radius + 1;
    PixelAt(pixels[..], at, w, x + radius + 1, v0, v1, v2, v3);
    var offset := at + pixel * 4;
    var start := (sp - radius + div) % div;
    next := (sp + 1) % div;
    ghost var a := stack[..];
    s0 := Turn(pixels, offset, stack, start, next, 0, t0, v0, x, radius, sp);
    ghost var b := stack[..];
    LaneKept(a, b, 1, v1, x, radius, sp, t1, 0);
    LaneKept(a, b, 2, v2, x, radius, sp, t2, 0);
    LaneKept(a, b, 3, v3, x, radius, sp, t3, 0);
    s1 := Turn(pixels, offset, stack, start, next, 1, t1, v1, x, radius, sp);
    ghost var c := stack[..];
    LaneKept(b, c, 0, v0, x + 1, radius, next, s0, 1);
    LaneKept(b, c, 2, v2, x, radius, sp, t2, 1);
    LaneKept(b, c, 3, v3, x, radius, sp, t3, 1);
    s2 := Turn(pixels, offset, stack, start, next, 2, t2, v2, x, radius, sp);
    ghost var d := stack[..];
    LaneKept(c, d, 0, v0, x + 1, radius, next, s0, 2);
    LaneKept(c, d, 1, v1, x + 1, radius, next, s1, 2);
    LaneKept(c, d, 3, v3, x, radius, sp, t3, 2);
    s3 := Turn(pixels, offset, stack, start, next, 3, t3, v3, x, radius, sp);
    LaneKept(d, stack[..], 0, v0, x + 1, radius, next, s0, 3);
    LaneKept(d, stack[..], 1, v1, x + 1, radius, next, s1, 3);
    LaneKept(d, stack[..], 2, v2, x + 1, radius, next, s2, 3);
  }

  /** dv: every sum that can come up, divided by the weights in all. */
  predicate Table(dv: seq<int>, divsum: nat) {
    divsum > 0 && |dv| == 256 * divsum && forall i :: 0 <= i < |dv| ==> dv[i] == i / divsum
  }

  /** The table gives the mean. */
  lemma TableMean(dv: seq<int>, v: seq<int>, x: nat, r: nat)
    requires x < |v| && Bytes(v) && Table(dv, (r + 1) * (r + 1))
    ensures 0 <= Tri(v, x, r) < |dv| && dv[Tri(v, x, r)] == Divided(v, r)[x]
  {
    hide Tri, Weighted, Bytes;
    TriBound(v, x, r);
    TriIsWeighted(v, x, r);
  }

  // ------------------------------------------------------- 32-bit arithmetic

  /** The size of the table fits an int up to radius 2895, and no further. */
  lemma TableFits(r: nat)
    ensures 256 * ((r + 1) * (r + 1)) <= INT_MAX <==> r <= 2895
  {
    if r <= 2895 { Squares(r + 1, 2896); } else { Squares(2897, r + 1); }
  }

  lemma Squares(a: nat, b: nat)
    requires a <= b
    ensures a * a <= b * b
  {
    Times(a, b, a);
    Times(a, b, b);
  }

  lemma {:induction false} HalvesFit(v: seq<int>, x: int, k: nat)
    requires v != [] && Bytes(v)
    ensures 0 <= Ahead(v, x, k) <= 255 * k && 0 <= Back(v, x, k) <= 255 * k
  {
    if k > 0 { HalvesFit(v, x, k - 1); }
  }

  /** Nor does any sum of the pass exceed an int then, also in the middle of a step, when the old
      half is subtracted and the new one not yet added. */
  lemma SumsFit(v: seq<int>, x: int, r: nat)
    requires v != [] && Bytes(v) && r <= 2895
    ensures var s, n := At(v, x, r), C(v, x + r + 1);
            && 0 <= s.sum <= INT_MAX && -INT_MAX <= s.sum - s.outside <= INT_MAX
            && 0 <= s.inside && s.inside + n <= INT_MAX
            && 0 <= s.outside && s.outside + n <= INT_MAX
  {
    hide Tri, Ahead, Back, Bytes, C;
    TableFits(r);
    TriBound(v, x, r);
    HalvesFit(v, x, r);
    HalvesFit(v, x, r + 1);
    CByte(v, x + r + 1);
  }

  /** vmin: where the next pixel of the window comes from. */
  predicate NextPixel(vmin: seq<int>, w: nat, r: nat, n: nat)
    requires w > 0
  {
    n <= |vmin| && forall x :: 0 <= x < n ==> vmin[x] == Clamp(x + r + 1, w)
  }

  /** The first x means of a line stand in the plane from at on. */
  predicate Means(plane: seq<int>, at: nat, v: seq<int>, r: nat, x: nat)
    requires v != []
  {
    x <= |v| && at + x <= |plane| && plane[at..at + x] == Divided(v, r)[..x]
  }

  lemma OneMean(before: seq<int>, after: seq<int>, at: nat, v: seq<int>, r: nat, x: nat)
    requires x < |v| && at + x < |before| && Means(before, at, v, r, x)
    requires after == before[at + x := Divided(v, r)[x]]
    ensures Means(after, at, v, r, x + 1) && after[..at] == before[..at]
  {
    hide Divided;
    assert after[at..at + x + 1] == before[at..at + x] + [Divided(v, r)[x]];
  }

  lemma LinesBytes(p: seq<byte>, at: nat, w: nat, v0: seq<int>, v1: seq<int>, v2: seq<int>, v3: seq<int>)
    requires Lines(p, at, w, v0, v1, v2, v3)
    ensures |v0| == |v1| == |v2| == |v3| == w > 0
    ensures Bytes(v0) && Bytes(v1) && Bytes(v2) && Bytes(v3)
  {
  }

  lemma LanesSums(stack: seq<int>, v0: seq<int>, v1: seq<int>, v2: seq<int>, v3: seq<int>, x: int, r: nat, sp: nat,
                  s0: Sums, s1: Sums, s2: Sums, s3: Sums)
    requires v0 != [] && v1 != [] && v2 != [] && v3 != []
    requires Lanes(stack, v0, v1, v2, v3, x, r, sp, s0, s1, s2, s3)
    ensures s0.sum == Tri(v0, x, r) && s1.sum == Tri(v1, x, r) && s2.sum == Tri(v2, x, r) && s3.sum == Tri(v3, x, r)
  {
  }

  /** The four means of one pixel. */
  method Store(r: array<int>, g: array<int>, b: array<int>, a: array<int>, dv: array<int>, at: nat, x: nat,
               s0: Sums, s1: Sums, s2: Sums, s3: Sums, ghost radius: nat,
               ghost v0: seq<int>, ghost v1: seq<int>, ghost v2: seq<int>, ghost v3: seq<int>)
    requires r != g && r != b && r != a && g != b && g != a && b != a && dv != r && dv != g && dv != b && dv != a
    requires |v0| == |v1| == |v2| == |v3| > x && Bytes(v0) && Bytes(v1) && Bytes(v2) && Bytes(v3)
    requires Table(dv[..], (radius + 1) * (radius + 1))
    requires s0.sum == Tri(v0, x, radius) && s1.sum == Tri(v1, x, radius)
    requires s2.sum == Tri(v2, x, radius) && s3.sum == Tri(v3, x, radius)
    requires at + x < r.Length == g.Length == b.Length == a.Length
    requires Means(r[..], at, v0, radius, x) && Means(g[..], at, v1, radius, x)
    requires Means(b[..], at, v2, radius, x) && Means(a[..], at, v3, radius, x)
    modifies r, g, b, a
    ensures Means(r[..], at, v0, radius, x + 1) && Means(g[..], at, v1, radius, x + 1)
    ensures Means(b[..], at, v2, radius, x + 1) && Means(a[..], at, v3, radius, x + 1)
    ensures r[..at] == old(r[..at]) && g[..at] == old(g[..at]) && b[..at] == old(b[..at]) && a[..at] == old(a[..at])
  {
    hide Tri, Bytes, Table, Means, Divided;
    TableMean(dv[..], v0, x, radius);
    TableMean(dv[..], v1, x, radius);
    TableMean(dv[..], v2, x, radius);
    TableMean(dv[..], v3, x, radius);
    ghost var r0, g0, b0, a0 := r[..], g[..], b[..], a[..];
    r[at + x] := dv[s0.sum];
    g[at + x] := dv[s1.sum];
    b[at + x] := dv[s2.sum];
    a[at + x] := dv[s3.sum];
    OneMean(r0, r[..], at, v0, radius, x);
    OneMean(g0, g[..], at, v1, radius, x);
    OneMean(b0, b[..], at, v2, radius, x);
    OneMean(a0, a[..], at, v3, radius, x);
  }

  /** Where the window's next pixel is: worked out in the first row, and kept for the others. */
  method Vmin(vmin: array<int>, first: bool, x: nat, w: nat, radius: nat) returns (pixel: nat)
    requires x < w <= vmin.Length && NextPixel(vmin[..], w, radius, if first then x else w)
    modifies vmin
    ensures pixel == Clamp(x + radius + 1, w) && NextPixel(vmin[..], w, radius, if first then x + 1 else w)
  {
    if first {
      vmin[x] := Min(x + radius + 1, w - 1);
    }
    pixel := vmin[x];
  }

  predicate Apart(stack: array<int>, vmin: array<int>, dv: array<int>, r: array<int>, g: array<int>, b: array<int>,
                  a: array<int>) {
    && stack != vmin && stack != dv && stack != r && stack != g && stack != b && stack != a
    && vmin != dv && vmin != r && vmin != g && vmin != b && vmin != a
    && dv != r && dv != g && dv != b && dv != a
    && r != g && r != b && r != a && g != b && g != a && b != a
  }

  /** The means of a whole row, in all four planes. */
  predicate RowMeans(r: seq<int>, g: seq<int>, b: seq<int>, a: seq<int>, at: nat,
                     v0: seq<int>, v1: seq<int>, v2: seq<int>, v3: seq<int>, radius: nat, x: nat)
    requires v0 != [] && v1 != [] && v2 != [] && v3 != []
  {
    && Means(r, at, v0, radius, x) && Means(g, at, v1, radius, x)
    && Means(b, at, v2, radius, x) && Means(a, at, v3, radius, x)
  }

  lemma NoMeans(plane: seq<int>, at: nat, v: seq<int>, r: nat)
    requires v != [] && at <= |plane|
    ensures Means(plane, at, v, r, 0)
  {
  }

  /** One turn of the outer loop. */
  method Row(pixels: array<byte>, from: nat, w: nat, radius: nat, stack: array<int>, vmin: array<int>, first: bool,
             dv: array<int>, r: array<int>, g: array<int>, b: array<int>, a: array<int>, at: nat,
             ghost v0: seq<int>, ghost v1: seq<int>, ghost v2: seq<int>, ghost v3: seq<int>)
    requires Lines(pixels[..], from, w, v0, v1, v2, v3) && stack.Length == 4 * (2 * radius + 1)
    requires Apart(stack, vmin, dv, r, g, b, a) && Table(dv[..], (radius + 1) * (radius + 1))
    requires w <= vmin.Length && NextPixel(vmin[..], w, radius, if first then 0 else w)
    requires at + w <= r.Length == g.Length == b.Length == a.Length
    modifies stack, vmin, r, g, b, a
    ensures v0 != [] && v1 != [] && v2 != [] && v3 != [] && NextPixel(vmin[..], w, radius, w)
    ensures RowMeans(r[..], g[..], b[..], a[..], at, v0, v1, v2, v3, radius, w)
    ensures r[..at] == old(r[..at]) && g[..at] == old(g[..at]) && b[..at] == old(b[..at]) && a[..at] == old(a[..at])
  {
    hide Lines, Lanes, Table, NextPixel, Means, Bytes, Clamp, Tri;
    ghost var p, t := pixels[..], dv[..];
    LinesBytes(p, from, w, v0, v1, v2, v3);
    var s0, s1, s2, s3 := Window(pixels, from, w, radius, stack, v0, v1, v2, v3);
    NoMeans(r[..], at, v0, radius);
    NoMeans(g[..], at, v1, radius);
    NoMeans(b[..], at, v2, radius);
    NoMeans(a[..], at, v3, radius);
    var sp: nat, x := radius, 0;
    while x < w
      invariant x <= w && sp < 2 * radius + 1 && pixels[..] == p && dv[..] == t
      invariant Lanes(stack[..], v0, v1, v2, v3, x, radius, sp, s0, s1, s2, s3)
      invariant NextPixel(vmin[..], w, radius, if first then x else w)
      invariant RowMeans(r[..], g[..], b[..], a[..], at, v0, v1, v2, v3, radius, x)
      invariant r[..at] == old(r[..at]) && g[..at] == old(g[..at]) && b[..at] == old(b[..at]) && a[..at] == old(a[..at])
    {
      LanesSums(stack[..], v0, v1, v2, v3, x, radius, sp, s0, s1, s2, s3);
      Store(r, g, b, a, dv, at, x, s0, s1, s2, s3, radius, v0, v1, v2, v3);
      var pixel := Vmin(vmin, first, x, w, radius);
      sp, s0, s1, s2, s3 := TurnPixel(pixels, from, w, radius, stack, pixel, sp, s0, s1, s2, s3, x, v0, v1, v2, v3);
      x := x + 1;
    }
  }

  // ------------------------------------------------------------ the pass

  /** The first y rows of all four planes. */
  predicate Planes(p: seq<byte>, w: nat, h: nat, stride: nat, radius: nat,
                   r: seq<int>, g: seq<int>, b: seq<int>, a: seq<int>, y: nat)
    requires Picture(p, w, h, stride)
  {
    && RowsIn(r, BlurredRows(p, w, h, stride, radius, 0), w, y)
    && RowsIn(g, BlurredRows(p, w, h, stride, radius, 1), w, y)
    && RowsIn(b, BlurredRows(p, w, h, stride, radius, 2), w, y)
    && RowsIn(a, BlurredRows(p, w, h, stride, radius, 3), w, y)
  }

  lemma RowLines(p: seq<byte>, w: nat, h: nat, stride: nat, radius: nat, y: nat)
    returns (v0: seq<int>, v1: seq<int>, v2: seq<int>, v3: seq<int>)
    requires Picture(p, w, h, stride) && y < h
    ensures Lines(p, y * stride, w, v0, v1, v2, v3)
    ensures v0 != [] && v1 != [] && v2 != [] && v3 != []
    ensures BlurredRows(p, w, h, stride, radius, 0)[y] == Divided(v0, radius)
    ensures BlurredRows(p, w, h, stride, radius, 1)[y] == Divided(v1, radius)
    ensures BlurredRows(p, w, h, stride, radius, 2)[y] == Divided(v2, radius)
    ensures BlurredRows(p, w, h, stride, radius, 3)[y] == Divided(v3, radius)
  {
    hide Chan, Divided;
    RowWithin(p, w, h, stride, y);
    var at := y * stride;
    v0, v1, v2, v3 := Chan(p, at, w, 0), Chan(p, at, w, 1), Chan(p, at, w, 2), Chan(p, at, w, 3);
  }

  lemma PlaneMore(before: seq<int>, after: seq<int>, rows: seq<seq<int>>, w: nat, y: nat, v: seq<int>, r: nat)
    requires RowsIn(before, rows, w, y) && y < |rows| && y * w + w <= |before| == |after| && |v| == w > 0
    requires after[..y * w] == before[..y * w] && Means(after, y * w, v, r, w) && rows[y] == Divided(v, r)
    ensures RowsIn(after, rows, w, y + 1)
  {
    hide RowsIn, Divided;
    assert Divided(v, r)[..w] == Divided(v, r);
    RowsMore(before, after, rows, w, y);
  }

  /** dv, filled in. */
  method DivisionTable(divsum: nat) returns (dv: array<int>)
    requires divsum > 0
    ensures fresh(dv) && Table(dv[..], divsum)
  {
    dv := new int[256 * divsum];
    var i := 0;
    while i < dv.Length
      invariant i <= dv.Length && forall k :: 0 <= k < i ==> dv[k] == k / divsum
    {
      dv[i] := i / divsum;
      i := i + 1;
    }
  }

  /** The horizontal pass of stackBlurBitmap: every row of every channel is its triangular mean, rounded down.
      The source computes in 32 bits; up to radius 2895 that is the same, by TableFits and SumsFit. */
  method HorizontalPass(pixels: array<byte>, w: nat, h: nat, stride: nat, radius: nat)
    returns (r: array<int>, g: array<int>, b: array<int>, a: array<int>)
    requires Picture(pixels[..], w, h, stride) && radius >= 1
    ensures Planes(pixels[..], w, h, stride, radius, r[..], g[..], b[..], a[..], h)
    ensures fresh(r) && fresh(g) && fresh(b) && fresh(a)
  {
    hide Picture, Planes, Lines, Table, NextPixel, Means, RowsIn, BlurredRows, Divided;
    var div := radius + radius + 1;
    var divsum := (div + 1) / 2 * ((div + 1) / 2);
    assert (div + 1) / 2 == radius + 1;
    var stack := new int[div * 4];
    var vmin := new int[Max(w, h)];
    r, g, b, a := new int[w * h], new int[w * h], new int[w * h], new int[w * h];
    var dv := DivisionTable(divsum);
    ghost var p, t := pixels[..], dv[..];
    PlanesStart(p, w, h, stride, radius, r[..], g[..], b[..], a[..], vmin[..]);
    var y := 0;
    while y < h
      invariant y <= h && pixels[..] == p && dv[..] == t
      invariant Planes(p, w, h, stride, radius, r[..], g[..], b[..], a[..], y)
      invariant NextPixel(vmin[..], w, radius, if y == 0 then 0 else w)
    {
      ghost var v0, v1, v2, v3 := RowLines(p, w, h, stride, radius, y);
      ghost var r0, g0, b0, a0 := r[..], g[..], b[..], a[..];
      RowEnds(y, h, w);
      Row(pixels, y * stride, w, radius, stack, vmin, y == 0, dv, r, g, b, a, y * w, v0, v1, v2, v3);
      assert r[..y * w] == r0[..y * w] && g[..y * w] == g0[..y * w];
      assert b[..y * w] == b0[..y * w] && a[..y * w] == a0[..y * w];
      PlanesMore(p, w, h, stride, radius, y, r0, g0, b0, a0, r[..], g[..], b[..], a[..], v0, v1, v2, v3);
      y := y + 1;
    }
  }

  lemma PlanesStart(p: seq<byte>, w: nat, h: nat, stride: nat, radius: nat,
                    r: seq<int>, g: seq<int>, b: seq<int>, a: seq<int>, vmin: seq<int>)
    requires Picture(p, w, h, stride)
    ensures w > 0 && h > 0 && Planes(p, w, h, stride, radius, r, g, b, a, 0) && NextPixel(vmin, w, radius, 0)
  {
  }

  lemma PlanesMore(p: seq<byte>, w: nat, h: nat, stride: nat, radius: nat, y: nat,
                   r: seq<int>, g: seq<int>, b: seq<int>, a: seq<int>,
                   r': seq<int>, g': seq<int>, b': seq<int>, a': seq<int>,
                   v0: seq<int>, v1: seq<int>, v2: seq<int>, v3: seq<int>)
    requires Picture(p, w, h, stride) && y < h && Planes(p, w, h, stride, radius, r, g, b, a, y)
    requires y * w + w <= |r| == |g| == |b| == |a| == |r'| == |g'| == |b'| == |a'|
    requires Lines(p, y * stride, w, v0, v1, v2, v3) && v0 != [] && v1 != [] && v2 != [] && v3 != []
    requires BlurredRows(p, w, h, stride, radius, 0)[y] == Divided(v0, radius)
    requires BlurredRows(p, w, h, stride, radius, 1)[y] == Divided(v1, radius)
    requires BlurredRows(p, w, h, stride, radius, 2)[y] == Divided(v2, radius)
    requires BlurredRows(p, w, h, stride, radius, 3)[y] == Divided(v3, radius)
    requires r'[..y * w] == r[..y * w] && g'[..y * w] == g[..y * w]
    requires b'[..y * w] == b[..y * w] && a'[..y * w] == a[..y * w]
    requires RowMeans(r', g', b', a', y * w, v0, v1, v2, v3, radius, w)
    ensures Planes(p, w, h, stride, radius, r', g', b', a', y + 1)
  {
    hide RowsIn, BlurredRows, Divided, Means, Chan, Lines, Bytes;
    LinesBytes(p, y * stride, w, v0, v1, v2, v3);
    PlaneMore(r, r', BlurredRows(p, w, h, stride, radius, 0), w, y, v0, radius);
    PlaneMore(g, g', BlurredRows(p, w, h, stride, radius, 1), w, y, v1, radius);
    PlaneMore(b, b', BlurredRows(p, w, h, stride, radius, 2), w, y, v2, radius);
    PlaneMore(a, a', BlurredRows(p, w, h, stride, radius, 3), w, y, v3, radius);
  }
}
