/** The blur that works on four channels at once, in the four 16-bit lanes of a 64-bit word. */
module FastBlur {
  import opened Lz4Format
  import opened Triangle

  const P16 := 0x1_0000
  const P32 := 0x1_0000_0000
  const P48 := 0x1_0000_0000_0000
  const P64 := 0x1_0000_0000_0000_0000

  // ----------------------------------------------------------------- words

  function Pack(a: int, b: int, c: int, d: int): int {
    a + b * P16 + c * P32 + d * P48
  }

  /** getColors. */
  function Colors(p: seq<byte>, i: nat): int
    requires i + 4 <= |p|
  {
    Pack(p[i], p[i + 1], p[i + 2], p[i + 3])
  }

  /** A non-negative word and-ed with 0x00FF00FF00FF00FF. */
  function Mask(n: nat): int {
    Pack(n % 256, n / P16 % 256, n / P32 % 256, n / P48 % 256)
  }

  /** The line v holds the four lines a, b, c, d of bytes. */
  predicate Packed(v: seq<int>, a: seq<int>, b: seq<int>, c: seq<int>, d: seq<int>) {
    && |v| == |a| == |b| == |c| == |d|
    && Bytes(a) && Bytes(b) && Bytes(c) && Bytes(d)
    && forall k :: 0 <= k < |v| ==> v[k] == Pack(a[k], b[k], c[k], d[k])
  }

  // ------------------------------------------------------------- the lanes

  /** The four radii there are: the weights add up to the power of two that the sum is shifted by. */
  predicate Radius(r: nat, d: nat) {
    (r == 1 && d == 4) || (r == 3 && d == 16) || (r == 7 && d == 64) || (r == 15 && d == 256)
  }

  /** The line after a pass: every channel divided down, in the bytes of its lane. */
  function Smoothed(v: seq<int>, r: nat, d: nat): (s: seq<int>)
    requires v != [] && d > 0
    ensures |s| == |v|
  {
    seq(|v|, x requires 0 <= x < |v| => Smooth(v, x, r, d))
  }

  function Smooth(v: seq<int>, x: int, r: nat, d: nat): int
    requires v != [] && d > 0
  {
    if Tri(v, x, r) < 0 then 0 else Mask(Tri(v, x, r) / d)
  }

  lemma CPacked(v: seq<int>, a: seq<int>, b: seq<int>, c: seq<int>, d: seq<int>, j: int)
    requires v != [] && Packed(v, a, b, c, d)
    ensures C(v, j) == Pack(C(a, j), C(b, j), C(c, j), C(d, j))
  {
  }

  lemma {:induction false} BoxPacked(v: seq<int>, a: seq<int>, b: seq<int>, c: seq<int>, d: seq<int>, x: int, m: nat)
    requires v != [] && Packed(v, a, b, c, d)
    ensures Box(v, x, m) == Pack(Box(a, x, m), Box(b, x, m), Box(c, x, m), Box(d, x, m))
  {
    hide C, Packed;
    SameLength(v, a, b, c, d);
    CPacked(v, a, b, c, d, x - m);
    CPacked(v, a, b, c, d, x + m);
    CPacked(v, a, b, c, d, x);
    if m > 0 { BoxPacked(v, a, b, c, d, x, m - 1); }
  }

  lemma {:induction false} TriPacked(v: seq<int>, a: seq<int>, b: seq<int>, c: seq<int>, d: seq<int>, x: int, m: nat)
    requires v != [] && Packed(v, a, b, c, d)
    ensures Tri(v, x, m) == Pack(Tri(a, x, m), Tri(b, x, m), Tri(c, x, m), Tri(d, x, m))
  {
    hide C, Packed, Box;
    SameLength(v, a, b, c, d);
    CPacked(v, a, b, c, d, x);
    BoxPacked(v, a, b, c, d, x, m);
    if m > 0 { TriPacked(v, a, b, c, d, x, m - 1); }
  }

  lemma SameLength(v: seq<int>, a: seq<int>, b: seq<int>, c: seq<int>, d: seq<int>)
    requires v != [] && Packed(v, a, b, c, d)
    ensures a != [] && b != [] && c != [] && d != []
  {
  }

  lemma Below(p: nat, q: nat, r: nat, s: nat)
    requires r < p && s < q
    ensures p * s + r < p * q
  {
    var k := q - s - 1;
    assert p * q == p * s + p + p * k by { assert p * (s + 1 + k) == p * s + p * 1 + p * k; }
    assert p * k >= 0;
  }

  lemma Expand(p: nat, q: nat, a: nat, s: nat)
    ensures p * (q * a + s) == (p * q) * a + p * s
  {
    assert p * (q * a + s) == p * (q * a) + p * s;
    assert p * (q * a) == (p * q) * a;
  }

  lemma Nested(w: nat, p: nat, q: nat, u: nat, r: nat, a: nat, s: nat)
    requires w == p * u + r && r < p && u == q * a + s && s < q
    ensures p * q > 0 && w / (p * q) == a
  {
    Expand(p, q, a, s);
    Below(p, q, r, s);
    QuotientIs(w, p * q, a, p * s + r);
  }

  lemma TwoDivisions(w: nat, p: nat, q: nat)
    requires p > 0 && q > 0
    ensures w / (p * q) == w / p / q
  {
    Nested(w, p, q, w / p, w % p, w / p / q, w / p % q);
  }

  lemma Distribute(e: nat, a: nat, b: nat)
    ensures e * (a + P16 * b) == e * a + P16 * (e * b)
  {
    assert e * (P16 * b) == P16 * (e * b);
  }

  lemma LowByte(q0: nat, x: nat, e: nat)
    requires q0 < 256 && e % 256 == 0
    ensures (q0 + e * x) % 256 == q0
  {
    var g := e / 256;
    assert e == 256 * g;
    assert e * x == 256 * (g * x);
    QuotientIs(q0 + e * x, 256, g * x, q0);
  }

  lemma QuotientBelow(n: nat, d: nat, e: nat)
    requires d > 0 && n < d * e
    ensures n / d < e
  {
    var k := e - n / d;
    assert d * k == d * e - d * (n / d) > 0;
  }

  /** The lowest lane of a shifted word, and the word above it. */
  lemma LowLane(n0: nat, n1: nat, rest: nat, d: nat, e: nat)
    requires d > 0 && d * e == P16 && e % 256 == 0 && n0 < P16 && n0 / d < 256
    ensures var w := n0 / d + e * (n1 + P16 * rest);
            w % 256 == n0 / d && w / P16 == n1 / d + e * rest
  {
    var q0, q1, r1 := n0 / d, n1 / d, n1 % d;
    LowByte(q0, n1 + P16 * rest, e);
    QuotientBelow(n0, d, e);
    assert n1 == d * q1 + r1;
    Expand(e, d, q1, r1);
    Below(e, d, q0, r1);
    Distribute(e, n1, rest);
    QuotientIs(q0 + e * (n1 + P16 * rest), P16, q1 + e * rest, q0 + e * r1);
  }

  /** With every lane below 2^16, a shift and a mask do to each lane what division does to it alone. */
  lemma NoCarry(n0: nat, n1: nat, n2: nat, n3: nat, d: nat)
    requires d == 4 || d == 16 || d == 64 || d == 256
    requires n0 / d < 256 && n1 / d < 256 && n2 / d < 256 && n3 / d < 256
    requires n0 < P16 && n1 < P16 && n2 < P16 && n3 < P16
    ensures Pack(n0, n1, n2, n3) >= 0
    ensures Mask(Pack(n0, n1, n2, n3) / d) == Pack(n0 / d, n1 / d, n2 / d, n3 / d)
  {
    hide Mask;
    var e := if d == 4 then 0x4000 else if d == 16 then 0x1000 else if d == 64 then 0x400 else 0x100;
    FourLanes(n0, n1, n2, n3, d, e);
  }

  lemma FourLanes(n0: nat, n1: nat, n2: nat, n3: nat, d: nat, e: nat)
    requires d > 0
    requires n0 / d < 256 && n1 / d < 256 && n2 / d < 256 && n3 / d < 256
    requires n0 < P16 && n1 < P16 && n2 < P16 && n3 < P16
    requires d * e == P16 && e % 256 == 0
    ensures Pack(n0, n1, n2, n3) >= 0
    ensures Mask(Pack(n0, n1, n2, n3) / d) == Pack(n0 / d, n1 / d, n2 / d, n3 / d)
  {
    var rest1 := n2 + P16 * n3;
    var rest0 := n1 + P16 * rest1;
    ShiftedWord(n0, rest0, d, e);
    assert Pack(n0, n1, n2, n3) == n0 + P16 * rest0;
    var w := n0 / d + e * rest0;
    LowLane(n0, n1, rest1, d, e);
    LowLane(n1, n2, n3, d, e);
    LowLane(n2, n3, 0, d, e);
    LowLane(n3, 0, 0, d, e);
    Nothing(d, e);
    TwoDivisions(w, P16, P16);
    TwoDivisions(w, P32, P16);
    assert w / P16 == n1 / d + e * rest1 && w / P32 == n2 / d + e * n3 && w / P48 == n3 / d;
  }

  lemma Nothing(d: nat, e: nat)
    requires d > 0
    ensures 0 / d == 0 && e * 0 == 0
  {
  }

  lemma ShiftedWord(n0: nat, rest: nat, d: nat, e: nat)
    requires d > 0 && d * e == P16
    ensures (n0 + P16 * rest) / d == n0 / d + e * rest
  {
    assert d * (n0 / d + e * rest) == d * (n0 / d) + d * e * rest;
    QuotientIs(n0 + P16 * rest, d, n0 / d + e * rest, n0 % d);
  }

  /** A pass over the words is a pass over each channel. */
  lemma SmoothPacked(v: seq<int>, a: seq<int>, b: seq<int>, c: seq<int>, d: seq<int>, x: int, r: nat, div: nat)
    requires v != [] && Packed(v, a, b, c, d) && Radius(r, div)
    ensures 0 <= Tri(v, x, r) < P64
    ensures Smooth(v, x, r, div)
         == Pack(Tri(a, x, r) / div, Tri(b, x, r) / div, Tri(c, x, r) / div, Tri(d, x, r) / div)
  {
    hide Tri, Mask;
    SameLength(v, a, b, c, d);
    TriPacked(v, a, b, c, d, x, r);
    LaneBound(a, x, r, div);
    LaneBound(b, x, r, div);
    LaneBound(c, x, r, div);
    LaneBound(d, x, r, div);
    NoCarry(Tri(a, x, r), Tri(b, x, r), Tri(c, x, r), Tri(d, x, r), div);
  }

  lemma LaneBound(a: seq<int>, x: int, r: nat, div: nat)
    requires a != [] && Bytes(a) && Radius(r, div)
    ensures 0 <= Tri(a, x, r) < P16 && 0 <= Tri(a, x, r) / div < 256
  {
    hide Tri, Bytes;
    TriBound(a, x, r);
  }

  lemma DividedAt(a: seq<int>, x: nat, r: nat, div: nat)
    requires x < |a| && Bytes(a) && Radius(r, div)
    ensures Divided(a, r)[x] == Tri(a, x, r) / div && 0 <= Divided(a, r)[x] <= 255
  {
    hide Tri, Weighted, Bytes;
    TriIsWeighted(a, x, r);
    LaneBound(a, x, r, div);
  }

  lemma SmoothedPacked(v: seq<int>, a: seq<int>, b: seq<int>, c: seq<int>, d: seq<int>, r: nat, div: nat)
    requires v != [] && Packed(v, a, b, c, d) && Radius(r, div)
    ensures Packed(Smoothed(v, r, div), Divided(a, r), Divided(b, r), Divided(c, r), Divided(d, r))
  {
    hide Tri, Smooth, Divided;
    forall x | 0 <= x < |v|
      ensures && 0 <= Divided(a, r)[x] <= 255 && 0 <= Divided(b, r)[x] <= 255
              && 0 <= Divided(c, r)[x] <= 255 && 0 <= Divided(d, r)[x] <= 255
              && Smoothed(v, r, div)[x] == Pack(Divided(a, r)[x], Divided(b, r)[x], Divided(c, r)[x], Divided(d, r)[x])
    {
      SmoothPacked(v, a, b, c, d, x, r, div);
      DividedAt(a, x, r, div);
      DividedAt(b, x, r, div);
      DividedAt(c, x, r, div);
      DividedAt(d, x, r, div);
    }
  }

  // -------------------------------------------------------- running sums

  /** The running sum is exact; the one of its differences is kept modulo 2^64. */
  predicate Running(v: seq<int>, x: int, r: nat, sum: int, all: int)
    requires v != []
  {
    sum == Tri(v, x, r) && all == (Ahead(v, x - 1, r + 1) - Back(v, x - 1, r + 1)) % P64
  }

  /** Every sum over the line fits a word. */
  ghost predicate Fits(v: seq<int>, r: nat)
    requires v != []
  {
    forall x: int :: 0 <= Tri(v, x, r) < P64
  }

  lemma PackedFits(v: seq<int>, a: seq<int>, b: seq<int>, c: seq<int>, d: seq<int>, r: nat, div: nat)
    requires v != [] && Packed(v, a, b, c, d) && Radius(r, div)
    ensures Fits(v, r)
  {
    hide Tri, Packed, Smooth;
    forall x: int ensures 0 <= Tri(v, x, r) < P64 {
      SmoothPacked(v, a, b, c, d, x, r, div);
    }
  }

  lemma AddMod(a: int, z: int)
    ensures (a % P64 + z) % P64 == (a + z) % P64
  {
    var q := a / P64;
    assert a == q * P64 + a % P64;
    ModAdds(a % P64 + z, q);
  }

  lemma ModAdds(n: int, q: int)
    ensures (n + q * P64) % P64 == n % P64
  {
    var m := n + q * P64;
    var k := m / P64 - n / P64 - q;
    assert k * P64 == n % P64 - m % P64;
  }

  lemma OwnMod(n: int)
    requires 0 <= n < P64
    ensures n % P64 == n
  {
  }

  /** The lines of update that move the sums on. */
  method Slide(sum: int, all: int, start: int, middle: int, end: int, ghost v: seq<int>, ghost x: int, ghost r: nat)
    returns (sum': int, all': int)
    requires v != [] && Running(v, x, r, sum, all) && Fits(v, r)
    requires start == C(v, x - r - 1) && middle == C(v, x) && end == C(v, x + r + 1)
    ensures Running(v, x + 1, r, sum', all')
  {
    hide C, Tri, Ahead, Back;
    all' := (all + start - 2 * middle + end) % P64;
    sum' := (sum + all') % P64;
    AheadMoves(v, x - 1, r + 1);
    BackMoves(v, x - 1, r + 1);
    var diff := Ahead(v, x, r + 1) - Back(v, x, r + 1);
    AddMod(Ahead(v, x - 1, r + 1) - Back(v, x - 1, r + 1), start - 2 * middle + end);
    assert all' == diff % P64;
    TriMoves(v, x, r);
    AddMod(diff, sum);
    assert 0 <= Tri(v, x + 1, r) < P64;
    OwnMod(sum + diff);
  }

  /** The sums at the start of a line, i values into it. */
  predicate Starting(v: seq<int>, r: nat, i: nat, sum: int, all: int)
    requires v != []
  {
    && sum == (v[0] * Half(r) + Lead(v, r + 1, i)) % P64
    && all == (Ahead(v, 0, i) - r * v[0]) % P64
  }

  method First(cur: int, radius: nat, ghost v: seq<int>) returns (sum: int, all: int)
    requires v != [] && cur == v[0]
    ensures Starting(v, radius, 0, sum, all)
  {
    var r1 := radius + 1;
    all := (0 - radius) * cur % P64;
    sum := cur * (r1 * (r1 + 1) / 2) % P64;
    HalfIs(radius);
    assert (0 - radius) * cur == 0 - radius * cur;
  }

  method Next(sum: int, all: int, cur: int, radius: nat, i: nat, ghost v: seq<int>) returns (sum': int, all': int)
    requires 0 < i <= radius && v != [] && Starting(v, radius, i - 1, sum, all) && cur == C(v, i)
    ensures Starting(v, radius, i, sum', all')
  {
    hide C, Half;
    var r1 := radius + 1;
    sum' := (sum + cur * (r1 - i)) % P64;
    all' := (all + cur) % P64;
    AddMod(v[0] * Half(radius) + Lead(v, r1, i - 1), cur * (r1 - i));
    AddMod(Ahead(v, 0, i - 1) - radius * v[0], cur);
  }

  lemma Started(v: seq<int>, r: nat, sum: int, all: int)
    requires v != [] && Starting(v, r, r, sum, all) && Fits(v, r)
    ensures Running(v, 0, r, sum, all)
  {
    hide C, Tri, Half, Lead, Ahead, Back;
    TriStart(v, r);
    BackStart(v, r + 1);
    AheadStart(v, r);
    assert 0 <= Tri(v, 0, r) < P64;
    OwnMod(Tri(v, 0, r));
    assert (r + 1) * v[0] == r * v[0] + v[0];
  }

  // ------------------------------------------------------------- the rows

  /** The words of w pixels from at on. */
  predicate Words(p: seq<byte>, at: nat, v: seq<int>) {
    at + 4 * |v| <= |p| && forall k :: 0 <= k < |v| ==> v[k] == Colors(p, at + 4 * k)
  }

  method GetColors(pix: array<byte>, at: nat, k: nat, ghost v: seq<int>) returns (c: int)
    requires Words(pix[..], at, v) && k < |v|
    ensures c == C(v, k)
  {
    var i := at + k * 4;
    c := Pack(pix[i], pix[i + 1], pix[i + 2], pix[i + 3]);
    assert v[k] == Colors(pix[..], at + 4 * k);
  }

  /** update, in a row. */
  method RowUpdate(pix: array<byte>, yw: nat, rgb: array<int>, at: nat, x: nat, start: nat, end: nat,
                   sum: int, all: int, radius: nat, d: nat, ghost v: seq<int>)
    returns (sum': int, all': int)
    requires d > 0 && x < |v| && Words(pix[..], yw, v) && Fits(v, radius) && Running(v, x, radius, sum, all)
    requires at + |v| <= rgb.Length && rgb[at..at + x] == Smoothed(v, radius, d)[..x]
    requires start == Clamp(x - radius - 1, |v|) && end == Clamp(x + radius + 1, |v|)
    modifies rgb
    ensures rgb[at..at + x + 1] == Smoothed(v, radius, d)[..x + 1]
    ensures rgb[..at] == old(rgb[..at]) && rgb[at + |v|..] == old(rgb[at + |v|..])
    ensures Running(v, x + 1, radius, sum', all')
  {
    hide Words, Tri, Mask;
    var s := GetColors(pix, yw, start, v);
    var m := GetColors(pix, yw, x, v);
    var e := GetColors(pix, yw, end, v);
    assert 0 <= Tri(v, x, radius) < P64;
    sum', all' := Slide(sum, all, s, m, e, v, x, radius);
    rgb[at + x] := Mask(sum / d);
    assert rgb[at..at + x + 1] == old(rgb[at..at + x]) + [Smooth(v, x, radius, d)];
  }

  /** One turn of the first outer loop. */
  method RowPass(pix: array<byte>, yw: nat, rgb: array<int>, at: nat, w: nat, radius: nat, d: nat, ghost v: seq<int>)
    requires d > 0 && 2 * radius + 1 < w == |v| && Words(pix[..], yw, v) && Fits(v, radius)
    requires at + w <= rgb.Length
    modifies rgb
    ensures rgb[at..at + w] == Smoothed(v, radius, d)
    ensures rgb[..at] == old(rgb[..at]) && rgb[at + w..] == old(rgb[at + w..])
  {
    hide Words, Smoothed, Fits, Running, Starting;
    var r1 := radius + 1;
    var we := w - r1;
    var cur := GetColors(pix, yw, 0, v);
    var sum, all := First(cur, radius, v);
    for i := 1 to radius + 1
      invariant Starting(v, radius, i - 1, sum, all)
      invariant rgb[..] == old(rgb[..])
    {
      cur := GetColors(pix, yw, i, v);
      sum, all := Next(sum, all, cur, radius, i, v);
    }
    Started(v, radius, sum, all);
    var x := 0;
    while x < r1
      invariant x <= r1 && Running(v, x, radius, sum, all) && rgb[at..at + x] == Smoothed(v, radius, d)[..x]
      invariant rgb[..at] == old(rgb[..at]) && rgb[at + w..] == old(rgb[at + w..])
    {
      sum, all := RowUpdate(pix, yw, rgb, at, x, 0, x + r1, sum, all, radius, d, v);
      x := x + 1;
    }
    while x < we
      invariant r1 <= x <= we && Running(v, x, radius, sum, all) && rgb[at..at + x] == Smoothed(v, radius, d)[..x]
      invariant rgb[..at] == old(rgb[..at]) && rgb[at + w..] == old(rgb[at + w..])
    {
      sum, all := RowUpdate(pix, yw, rgb, at, x, x - r1, x + r1, sum, all, radius, d, v);
      x := x + 1;
    }
    while x < w
      invariant we <= x <= w && Running(v, x, radius, sum, all) && rgb[at..at + x] == Smoothed(v, radius, d)[..x]
      invariant rgb[..at] == old(rgb[..at]) && rgb[at + w..] == old(rgb[at + w..])
    {
      sum, all := RowUpdate(pix, yw, rgb, at, x, x - r1, w - 1, sum, all, radius, d, v);
      x := x + 1;
    }
    assert Smoothed(v, radius, d)[..w] == Smoothed(v, radius, d);
  }

  // ---------------------------------------------------------- the columns

  predicate InColumn(g: seq<int>, x: nat, w: nat, v: seq<int>) {
    forall k: nat :: k < |v| ==> x + k * w < |g| && v[k] == g[x + k * w]
  }

  /** The first y pixels of a column of the picture. */
  predicate Written(b: seq<byte>, x: nat, stride: nat, s: seq<int>, y: nat) {
    forall j: nat :: j < y && j < |s| ==> Pos(j, x, stride) + 4 <= |b| && s[j] == Colors(b, Pos(j, x, stride))
  }

  /** Nothing but that column is different. */
  predicate OthersSame(b0: seq<byte>, b: seq<byte>, x: nat, stride: nat)
    requires stride > 0
  {
    |b0| == |b| && forall k: nat :: k < |b| && !(4 * x <= k % stride < 4 * x + 4) ==> b[k] == b0[k]
  }

  lemma PosApart(j: nat, y: nat, x: nat, stride: nat)
    requires j < y && stride >= 4
    ensures Pos(j, x, stride) + 4 <= Pos(y, x, stride)
  {
    var k := y - j - 1;
    assert y * stride == j * stride + stride + k * stride by {
      assert (j + 1 + k) * stride == j * stride + 1 * stride + k * stride;
    }
    assert k * stride >= 0;
  }

  lemma PosInRow(y: nat, x: nat, stride: nat, k: nat)
    requires 4 * x + 4 <= stride && Pos(y, x, stride) <= k < Pos(y, x, stride) + 4
    ensures 4 * x <= k % stride < 4 * x + 4
  {
    assert k == stride * y + (k - y * stride);
    QuotientIs(k, stride, y, k - y * stride);
  }

  /** Four bytes written at the next place of the column. */
  lemma FourWritten(b0: seq<byte>, b: seq<byte>, b': seq<byte>, x: nat, stride: nat, s: seq<int>, y: nat)
    requires 4 * x + 4 <= stride && y < |s| && |b'| == |b| && Pos(y, x, stride) + 4 <= |b|
    requires Written(b, x, stride, s, y) && OthersSame(b0, b, x, stride)
    requires forall k: nat :: k < |b| && !(Pos(y, x, stride) <= k < Pos(y, x, stride) + 4) ==> b'[k] == b[k]
    requires Colors(b', Pos(y, x, stride)) == s[y]
    ensures Written(b', x, stride, s, y + 1) && OthersSame(b0, b', x, stride)
  {
    forall k: nat | k < |b'| && !(4 * x <= k % stride < 4 * x + 4) ensures b'[k] == b0[k] {
      if Pos(y, x, stride) <= k < Pos(y, x, stride) + 4 { PosInRow(y, x, stride, k); }
    }
    forall j: nat | j < y + 1 && j < |s|
      ensures Pos(j, x, stride) + 4 <= |b'| && s[j] == Colors(b', Pos(j, x, stride))
    {
      if j < y {
        assert s[j] == Colors(b, Pos(j, x, stride));
        PosApart(j, y, x, stride);
      }
    }
  }

  method GetWord(rgb: array<int>, x: nat, w: nat, k: nat, ghost v: seq<int>) returns (c: int)
    requires InColumn(rgb[..], x, w, v) && k < |v|
    ensures c == C(v, k)
  {
    assert v[k] == rgb[..][x + k * w];
    InRange(x, k, w, v, rgb[..]);
    c := rgb[x + k * w];
  }

  lemma InRange(x: nat, k: nat, w: nat, v: seq<int>, g: seq<int>)
    requires InColumn(g, x, w, v) && k < |v|
    ensures 0 <= x + k * w < |g|
  {
    assert v[k] == g[x + k * w];
  }

  /** update, in a column. */
  method ColumnUpdate(rgb: array<int>, x: nat, w: nat, pix: array<byte>, yi: nat, stride: nat, y: nat, start: nat,
                      end: nat,
                      sum: int, all: int, radius: nat, d: nat, ghost v: seq<int>, ghost b0: seq<byte>)
    returns (sum': int, all': int)
    requires d > 0 && y < |v| && InColumn(rgb[..], x, w, v) && Fits(v, radius) && Running(v, y, radius, sum, all)
    requires 4 * x + 4 <= stride && yi == Pos(y, x, stride) && yi + 4 <= pix.Length
    requires Written(pix[..], x, stride, Smoothed(v, radius, d), y) && OthersSame(b0, pix[..], x, stride)
    requires start == Clamp(y - radius - 1, |v|) && end == Clamp(y + radius + 1, |v|)
    modifies pix
    ensures Written(pix[..], x, stride, Smoothed(v, radius, d), y + 1) && OthersSame(b0, pix[..], x, stride)
    ensures Running(v, y + 1, radius, sum', all')
  {
    hide InColumn, Tri, Written, OthersSame;
    var s := GetWord(rgb, x, w, start, v);
    var m := GetWord(rgb, x, w, y, v);
    var e := GetWord(rgb, x, w, end, v);
    ghost var b := pix[..];
    assert 0 <= Tri(v, y, radius) < P64;
    sum', all' := Slide(sum, all, s, m, e, v, y, radius);
    var res := sum / d;
    pix[yi], pix[yi + 1], pix[yi + 2], pix[yi + 3] := res % 256, res / P16 % 256, res / P32 % 256, res / P48 % 256;
    FourWritten(b0, b, pix[..], x, stride, Smoothed(v, radius, d), y);
  }

  /** One turn of the second outer loop. */
  method ColumnPass(rgb: array<int>, x: nat, w: nat, h: nat, pix: array<byte>, stride: nat, radius: nat, d: nat,
                    ghost v: seq<int>)
    requires d > 0 && 2 * radius + 1 < h == |v| && InColumn(rgb[..], x, w, v) && Fits(v, radius)
    requires 4 * x + 4 <= stride && h * stride <= pix.Length
    modifies pix
    ensures Written(pix[..], x, stride, Smoothed(v, radius, d), h) && OthersSame(old(pix[..]), pix[..], x, stride)
  {
    hide InColumn, Smoothed, Fits, Running, Starting, Written, OthersSame, Pos, Half, Tri;
    ghost var b0 := pix[..];
    var r1 := radius + 1;
    var he := h - r1;
    var cur := GetWord(rgb, x, w, 0, v);
    var sum, all := First(cur, radius, v);
    for i := 1 to radius + 1
      invariant Starting(v, radius, i - 1, sum, all) && pix[..] == b0
    {
      cur := GetWord(rgb, x, w, i, v);
      sum, all := Next(sum, all, cur, radius, i, v);
    }
    Started(v, radius, sum, all);
    var y, yi := 0, x * 4;
    NoneWritten(b0, x, stride, Smoothed(v, radius, d));
    while y < r1
      invariant y <= r1 && yi == Pos(y, x, stride) && Running(v, y, radius, sum, all)
      invariant Written(pix[..], x, stride, Smoothed(v, radius, d), y) && OthersSame(b0, pix[..], x, stride)
    {
      NextPos(y, x, stride, h);
      sum, all := ColumnUpdate(rgb, x, w, pix, yi, stride, y, 0, y + r1, sum, all, radius, d, v, b0);
      y, yi := y + 1, yi + stride;
    }
    while y < he
      invariant r1 <= y <= he && yi == Pos(y, x, stride) && Running(v, y, radius, sum, all)
      invariant Written(pix[..], x, stride, Smoothed(v, radius, d), y) && OthersSame(b0, pix[..], x, stride)
    {
      NextPos(y, x, stride, h);
      sum, all := ColumnUpdate(rgb, x, w, pix, yi, stride, y, y - r1, y + r1, sum, all, radius, d, v, b0);
      y, yi := y + 1, yi + stride;
    }
    while y < h
      invariant he <= y <= h && yi == Pos(y, x, stride) && Running(v, y, radius, sum, all)
      invariant Written(pix[..], x, stride, Smoothed(v, radius, d), y) && OthersSame(b0, pix[..], x, stride)
    {
      NextPos(y, x, stride, h);
      sum, all := ColumnUpdate(rgb, x, w, pix, yi, stride, y, y - r1, h - 1, sum, all, radius, d, v, b0);
      y, yi := y + 1, yi + stride;
    }
  }

  lemma NoneWritten(b: seq<byte>, x: nat, stride: nat, s: seq<int>)
    requires stride > 0
    ensures Written(b, x, stride, s, 0) && OthersSame(b, b, x, stride) && Pos(0, x, stride) == x * 4
  {
  }

  // ---------------------------------------------------------- the picture

  function Column(rows: seq<seq<int>>, x: nat): (v: seq<int>)
    requires forall y :: 0 <= y < |rows| ==> x < |rows[y]|
    ensures |v| == |rows|
  {
    seq(|rows|, y requires 0 <= y < |rows| => rows[y][x])
  }

  /** The rows blurred, then the columns of the result: one byte of it. */
  function BlurredByte(p: seq<byte>, w: nat, h: nat, stride: nat, r: nat, y: nat, x: nat, ch: nat): int
    requires Picture(p, w, h, stride) && y < h && x < w && ch < 4
  {
    Divided(Column(BlurredRows(p, w, h, stride, r, ch), x), r)[y]
  }

  /** Channel ch of pixel (x, y) of p' is what it should be for the picture p. */
  predicate ByteIs(p: seq<byte>, p': seq<byte>, w: nat, h: nat, stride: nat, r: nat, y: nat, x: nat, ch: nat)
    requires Picture(p, w, h, stride) && y < h && x < w && ch < 4
  {
    Pos(y, x, stride) + ch < |p'| && p'[Pos(y, x, stride) + ch] == BlurredByte(p, w, h, stride, r, y, x, ch)
  }

  ghost predicate Blurred(p: seq<byte>, p': seq<byte>, w: nat, h: nat, stride: nat, r: nat)
    requires Picture(p, w, h, stride)
  {
    && |p'| == |p|
    && forall y: nat, x: nat, ch: nat :: y < h && x < w && ch < 4 ==> ByteIs(p, p', w, h, stride, r, y, x, ch)
  }

  /** What the function works on; for anything else it leaves the picture alone. */
  predicate Applies(w: nat, h: nat, stride: nat, radius: int) {
    && (radius == 1 || radius == 3 || radius == 7 || radius == 15)
    && 2 * radius + 1 < w && 2 * radius + 1 < h && w * h <= 150 * 150 && stride <= 4 * w
  }

  function WordsOf(p: seq<byte>, at: nat, w: nat): (v: seq<int>)
    requires at + 4 * w <= |p|
    ensures |v| == w && Words(p, at, v)
  {
    seq(w, k requires 0 <= k < w => Colors(p, at + 4 * k))
  }

  lemma WordsPacked(p: seq<byte>, at: nat, w: nat)
    requires at + 4 * w <= |p|
    ensures Packed(WordsOf(p, at, w), Chan(p, at, w, 0), Chan(p, at, w, 1), Chan(p, at, w, 2), Chan(p, at, w, 3))
  {
  }

  /** The words of the rows after the first pass. */
  function WordRows(p: seq<byte>, w: nat, h: nat, stride: nat, r: nat, d: nat): (rows: seq<seq<int>>)
    requires Picture(p, w, h, stride) && d > 0
    ensures |rows| == h && forall y :: 0 <= y < h ==> |rows[y]| == w
  {
    seq(h, y requires 0 <= y < h => (RowWithin(p, w, h, stride, y); Smoothed(WordsOf(p, y * stride, w), r, d)))
  }

  lemma RowsPacked(p: seq<byte>, w: nat, h: nat, stride: nat, r: nat, d: nat, y: nat)
    requires Picture(p, w, h, stride) && Radius(r, d) && y < h
    ensures Packed(WordRows(p, w, h, stride, r, d)[y],
                   BlurredRows(p, w, h, stride, r, 0)[y], BlurredRows(p, w, h, stride, r, 1)[y],
                   BlurredRows(p, w, h, stride, r, 2)[y], BlurredRows(p, w, h, stride, r, 3)[y])
  {
    hide Smoothed, Divided, WordsOf, Chan, Packed;
    RowWithin(p, w, h, stride, y);
    var at := y * stride;
    WordsPacked(p, at, w);
    SmoothedPacked(WordsOf(p, at, w), Chan(p, at, w, 0), Chan(p, at, w, 1), Chan(p, at, w, 2), Chan(p, at, w, 3), r, d);
  }

  lemma ColumnPacked(v: seq<seq<int>>, a: seq<seq<int>>, b: seq<seq<int>>, c: seq<seq<int>>, d: seq<seq<int>>,
                     x: nat, w: nat)
    requires x < w && |v| == |a| == |b| == |c| == |d|
    requires forall y :: 0 <= y < |v| ==> |v[y]| == |a[y]| == |b[y]| == |c[y]| == |d[y]| == w
    requires forall y :: 0 <= y < |v| ==> Packed(v[y], a[y], b[y], c[y], d[y])
    ensures Packed(Column(v, x), Column(a, x), Column(b, x), Column(c, x), Column(d, x))
  {
  }

  lemma ColumnsPacked(p: seq<byte>, w: nat, h: nat, stride: nat, r: nat, d: nat, x: nat)
    requires Picture(p, w, h, stride) && Radius(r, d) && x < w
    ensures Packed(Column(WordRows(p, w, h, stride, r, d), x),
                   Column(BlurredRows(p, w, h, stride, r, 0), x), Column(BlurredRows(p, w, h, stride, r, 1), x),
                   Column(BlurredRows(p, w, h, stride, r, 2), x), Column(BlurredRows(p, w, h, stride, r, 3), x))
  {
    hide Packed, Picture;
    var v := WordRows(p, w, h, stride, r, d);
    var a, b := BlurredRows(p, w, h, stride, r, 0), BlurredRows(p, w, h, stride, r, 1);
    var c, e := BlurredRows(p, w, h, stride, r, 2), BlurredRows(p, w, h, stride, r, 3);
    forall y | 0 <= y < h ensures Packed(v[y], a[y], b[y], c[y], e[y]) {
      RowsPacked(p, w, h, stride, r, d, y);
    }
    ColumnPacked(v, a, b, c, e, x, w);
  }

  // ------------------------------------------------------- the outer loops

  lemma RowsToColumn(g: seq<int>, rows: seq<seq<int>>, w: nat, x: nat)
    requires RowsIn(g, rows, w, |rows|) && x < w && forall y :: 0 <= y < |rows| ==> |rows[y]| == w
    ensures InColumn(g, x, w, Column(rows, x))
  {
    var v := Column(rows, x);
    forall k: nat | k < |v| ensures x + k * w < |g| && v[k] == g[x + k * w] {
      assert g[k * w..k * w + w] == rows[k];
      assert rows[k][x] == g[k * w..k * w + w][x];
    }
  }

  /** The first x columns are blurred. */
  predicate ColumnsDone(b: seq<byte>, p: seq<byte>, w: nat, h: nat, stride: nat, r: nat, d: nat, x: nat)
    requires Picture(p, w, h, stride) && d > 0
  {
    forall i: nat :: i < x && i < w ==>
      Written(b, i, stride, Smoothed(Column(WordRows(p, w, h, stride, r, d), i), r, d), h)
  }

  lemma ColumnKept(b: seq<byte>, b': seq<byte>, i: nat, x: nat, stride: nat, s: seq<int>, h: nat)
    requires i != x && 4 * i + 4 <= stride && 4 * x + 4 <= stride
    requires Written(b, i, stride, s, h) && OthersSame(b, b', x, stride)
    ensures Written(b', i, stride, s, h)
  {
    forall j: nat | j < h && j < |s| ensures Pos(j, i, stride) + 4 <= |b'| && s[j] == Colors(b', Pos(j, i, stride)) {
      var q := Pos(j, i, stride);
      assert s[j] == Colors(b, q);
      PosInRow(j, i, stride, q);
      PosInRow(j, i, stride, q + 1);
      PosInRow(j, i, stride, q + 2);
      PosInRow(j, i, stride, q + 3);
    }
  }

  lemma ColumnsMore(b: seq<byte>, b': seq<byte>, p: seq<byte>, w: nat, h: nat, stride: nat, r: nat, d: nat, x: nat)
    requires Picture(p, w, h, stride) && d > 0 && x < w
    requires ColumnsDone(b, p, w, h, stride, r, d, x) && OthersSame(b, b', x, stride)
    requires Written(b', x, stride, Smoothed(Column(WordRows(p, w, h, stride, r, d), x), r, d), h)
    ensures ColumnsDone(b', p, w, h, stride, r, d, x + 1)
  {
    hide Written, OthersSame, Smoothed, WordRows;
    var rows := WordRows(p, w, h, stride, r, d);
    forall i: nat | i < x + 1 && i < w ensures Written(b', i, stride, Smoothed(Column(rows, i), r, d), h) {
      if i < x { ColumnKept(b, b', i, x, stride, Smoothed(Column(rows, i), r, d), h); }
    }
  }

  lemma Unpack(a: byte, b: byte, c: byte, d: byte, a': int, b': int, c': int, d': int)
    requires Pack(a, b, c, d) == Pack(a', b', c', d')
    requires 0 <= a' <= 255 && 0 <= b' <= 255 && 0 <= c' <= 255 && 0 <= d' <= 255
    ensures a == a' && b == b' && c == c' && d == d'
  {
  }

  lemma PixelDone(b: seq<byte>, p: seq<byte>, w: nat, h: nat, stride: nat, r: nat, d: nat, x: nat, y: nat, ch: nat)
    requires Picture(p, w, h, stride) && Radius(r, d) && x < w && y < h && ch < 4
    requires Written(b, x, stride, Smoothed(Column(WordRows(p, w, h, stride, r, d), x), r, d), h)
    ensures ByteIs(p, b, w, h, stride, r, y, x, ch)
  {
    hide Smoothed, Divided, Packed, Colors, WordRows, BlurredRows, Pos, Column;
    var v := Column(WordRows(p, w, h, stride, r, d), x);
    var c0, c1 := Column(BlurredRows(p, w, h, stride, r, 0), x), Column(BlurredRows(p, w, h, stride, r, 1), x);
    var c2, c3 := Column(BlurredRows(p, w, h, stride, r, 2), x), Column(BlurredRows(p, w, h, stride, r, 3), x);
    ColumnsPacked(p, w, h, stride, r, d, x);
    SmoothedPacked(v, c0, c1, c2, c3, r, d);
    var s := Smoothed(v, r, d);
    var at := Pos(y, x, stride);
    assert s[y] == Colors(b, at);
    PackedPixel(b, at, s, Divided(c0, r), Divided(c1, r), Divided(c2, r), Divided(c3, r), y);
  }

  lemma PackedPixel(b: seq<byte>, at: nat, s: seq<int>, c0: seq<int>, c1: seq<int>, c2: seq<int>, c3: seq<int>, y: nat)
    requires y < |s| && Packed(s, c0, c1, c2, c3) && at + 4 <= |b| && s[y] == Colors(b, at)
    ensures b[at] == c0[y] && b[at + 1] == c1[y] && b[at + 2] == c2[y] && b[at + 3] == c3[y]
  {
    Unpack(b[at], b[at + 1], b[at + 2], b[at + 3], c0[y], c1[y], c2[y], c3[y]);
  }

  lemma AllDone(b: seq<byte>, p: seq<byte>, w: nat, h: nat, stride: nat, r: nat, d: nat)
    requires Picture(p, w, h, stride) && Radius(r, d) && |b| == |p|
    requires ColumnsDone(b, p, w, h, stride, r, d, w)
    ensures Blurred(p, b, w, h, stride, r)
  {
    hide Written, ByteIs, Smoothed, WordRows;
    forall y: nat, x: nat, ch: nat | y < h && x < w && ch < 4
      ensures ByteIs(p, b, w, h, stride, r, y, x, ch)
    {
      PixelDone(b, p, w, h, stride, r, d, x, y, ch);
    }
  }

  /** The first outer loop. */
  method Rows(pix: array<byte>, rgb: array<int>, w: nat, h: nat, stride: nat, radius: nat, d: nat)
    requires Picture(pix[..], w, h, stride) && d > 0 && Radius(radius, d) && 2 * radius + 1 < w && rgb.Length == w * h
    modifies rgb
    ensures RowsIn(rgb[..], WordRows(pix[..], w, h, stride, radius, d), w, h)
  {
    hide Picture, Smoothed, Fits, Radius, RowsIn, WordRows, Words, WordsOf;
    ghost var p := pix[..];
    ghost var rows := WordRows(p, w, h, stride, radius, d);
    var y, yw := 0, 0;
    NoRows(rgb[..], rows, w);
    while y < h
      invariant y <= h && yw == y * stride && RowsIn(rgb[..], rows, w, y)
      invariant pix[..] == p
    {
      ghost var g := rgb[..];
      ghost var v := RowReady(p, w, h, stride, radius, d, y);
      RowEnds(y, h, w);
      RowPass(pix, yw, rgb, y * w, w, radius, d, v);
      assert rgb[..y * w] == g[..y * w];
      RowsMore(g, rgb[..], rows, w, y);
      y, yw := y + 1, yw + stride;
    }
  }

  /** The words of row y, and what the pass makes of them. */
  lemma RowReady(p: seq<byte>, w: nat, h: nat, stride: nat, r: nat, d: nat, y: nat) returns (v: seq<int>)
    requires Picture(p, w, h, stride) && Radius(r, d) && y < h
    ensures |v| == w > 0 && Words(p, y * stride, v) && Fits(v, r) && d > 0
    ensures WordRows(p, w, h, stride, r, d)[y] == Smoothed(v, r, d)
  {
    hide Smoothed, Fits, Words, WordsOf, Chan, Packed;
    RowWithin(p, w, h, stride, y);
    var at := y * stride;
    v := WordsOf(p, at, w);
    WordsPacked(p, at, w);
    PackedFits(v, Chan(p, at, w, 0), Chan(p, at, w, 1), Chan(p, at, w, 2), Chan(p, at, w, 3), r, d);
  }

  /** The words of column x. */
  lemma ColumnReady(g: seq<int>, p: seq<byte>, w: nat, h: nat, stride: nat, r: nat, d: nat,
                    x: nat) returns (v: seq<int>)
    requires Picture(p, w, h, stride) && Radius(r, d) && x < w && RowsIn(g, WordRows(p, w, h, stride, r, d), w, h)
    ensures v == Column(WordRows(p, w, h, stride, r, d), x) && |v| == h > 0
    ensures InColumn(g, x, w, v) && Fits(v, r) && d > 0
  {
    hide Fits, WordRows, BlurredRows, Packed, RowsIn, InColumn, Column;
    v := Column(WordRows(p, w, h, stride, r, d), x);
    RowsToColumn(g, WordRows(p, w, h, stride, r, d), w, x);
    ColumnsPacked(p, w, h, stride, r, d, x);
    PackedFits(v, Column(BlurredRows(p, w, h, stride, r, 0), x), Column(BlurredRows(p, w, h, stride, r, 1), x),
               Column(BlurredRows(p, w, h, stride, r, 2), x), Column(BlurredRows(p, w, h, stride, r, 3), x), r, d);
  }

  /** The second outer loop. */
  method Columns(rgb: array<int>, pix: array<byte>, w: nat, h: nat, stride: nat, radius: nat, d: nat)
    requires Picture(pix[..], w, h, stride) && Radius(radius, d) && 2 * radius + 1 < h
    requires RowsIn(rgb[..], WordRows(pix[..], w, h, stride, radius, d), w, h)
    modifies pix
    ensures Blurred(old(pix[..]), pix[..], w, h, stride, radius)
  {
    hide Smoothed, Fits, Radius, RowsIn, WordRows, InColumn, Written, OthersSame, ColumnsDone, Blurred, Column;
    ghost var p, g := pix[..], rgb[..];
    NoColumns(p, w, h, stride, radius, d);
    var x := 0;
    while x < w
      invariant x <= w && |pix[..]| == |p| && rgb[..] == g
      invariant ColumnsDone(pix[..], p, w, h, stride, radius, d, x)
    {
      ghost var b := pix[..];
      ghost var v := ColumnReady(g, p, w, h, stride, radius, d, x);
      ColumnPass(rgb, x, w, h, pix, stride, radius, d, v);
      ColumnsMore(b, pix[..], p, w, h, stride, radius, d, x);
      x := x + 1;
    }
    AllDone(pix[..], p, w, h, stride, radius, d);
  }

  lemma NoColumns(p: seq<byte>, w: nat, h: nat, stride: nat, r: nat, d: nat)
    requires Picture(p, w, h, stride) && Radius(r, d)
    ensures d > 0 && ColumnsDone(p, p, w, h, stride, r, d, 0)
  {
  }

  /** A product in 32 bits with a sign. */
  function Wrap32(n: nat): int {
    if n % 0x1_0000_0000 < 0x8000_0000 then n % 0x1_0000_0000 else n % 0x1_0000_0000 - 0x1_0000_0000
  }

  /** The test on the number of pixels is that of 32-bit arithmetic for every picture of less than
      8 GB; for one of 16 GB it is not. */
  lemma ProductFits(w: nat, h: nat, stride: nat, length: nat)
    requires 4 * w <= stride && h * stride <= length < 0x2_0000_0000
    ensures Wrap32(w * h) == w * h
    ensures Wrap32(0x1_0000 * 0x1_0000) == 0
  {
    Times(4 * w, stride, h);
    assert h * (4 * w) == 4 * (w * h);
    OwnWrap(w * h);
  }

  lemma OwnWrap(n: nat)
    requires n < 0x8000_0000
    ensures Wrap32(n) == n
  {
  }

  /** fastBlur, for the pixels of a bitmap, whose rows are at least w pixels apart. */
  method FastBlur(w: nat, h: nat, stride: nat, pix: array?<byte>, radius: int)
    requires pix != null ==> 4 * w <= stride && h * stride <= pix.Length
    modifies if pix == null then {} else {pix}
    ensures pix != null && !Applies(w, h, stride, radius) ==> pix[..] == old(pix[..])
    ensures pix != null && Applies(w, h, stride, radius) ==> Blurred(old(pix[..]), pix[..], w, h, stride, radius)
  {
    hide Blurred, WordRows, RowsIn;
    if pix == null { return; }
    var div := radius * 2 + 1;
    var shift;
    if radius == 1 {
      shift := 2;
    } else if radius == 3 {
      shift := 4;
    } else if radius == 7 {
      shift := 6;
    } else if radius == 15 {
      shift := 8;
    } else {
      return;
    }
    if radius > 15 || div >= w || div >= h || w * h > 150 * 150 || stride > w * 4 {
      return;
    }
    var d := Power2(shift);
    var rgb := new int[w * h];
    Rows(pix, rgb, w, h, stride, radius, d);
    Columns(rgb, pix, w, h, stride, radius, d);
  }
}
