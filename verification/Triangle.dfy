/** Triangular sums over a line whose ends are repeated, and how they change from one place to the next. */
module Triangle {
  import opened Lz4Format

  function Clamp(j: int, n: nat): (r: nat)
    requires n > 0
    ensures r < n && (0 <= j < n ==> r == j)
  {
    if j < 0 then 0 else if j < n then j else n - 1
  }

  /** The value at j, the ends standing for all that lies beyond them. */
  function C(v: seq<int>, j: int): int
    requires v != []
  {
    v[Clamp(j, |v|)]
  }

  function Weight(r: nat, i: int): int {
    if i < 0 then r + 1 + i else r + 1 - i
  }

  /** The sum that is meant: weights from 1 up to r + 1 in the middle and down to 1; here from place i on. */
  function Weighted(v: seq<int>, x: int, r: nat, i: int): int
    requires v != []
    decreases r - i
  {
    if i > r then 0 else Weight(r, i) * C(v, x + i) + Weighted(v, x, r, i + 1)
  }

  /** The same by sums over ever wider boxes. */
  function Box(v: seq<int>, x: int, m: nat): int
    requires v != []
  {
    if m == 0 then C(v, x) else Box(v, x, m - 1) + C(v, x - m) + C(v, x + m)
  }

  function Tri(v: seq<int>, x: int, m: nat): int
    requires v != []
  {
    if m == 0 then C(v, x) else Tri(v, x, m - 1) + Box(v, x, m)
  }

  // ---------------------------------------------------------- the two agree

  function Span(v: seq<int>, x: int, i: int, m: int): int
    requires v != []
    decreases m - i
  {
    if i > m then 0 else C(v, x + i) + Span(v, x, i + 1, m)
  }

  lemma {:induction false} SpanLast(v: seq<int>, x: int, i: int, m: int)
    requires v != [] && i <= m
    ensures Span(v, x, i, m) == Span(v, x, i, m - 1) + C(v, x + m)
    decreases m - i
  {
    if i < m { SpanLast(v, x, i + 1, m); }
  }

  lemma {:induction false} BoxIsSpan(v: seq<int>, x: int, m: nat)
    requires v != []
    ensures Box(v, x, m) == Span(v, x, 0 - m, m)
  {
    hide C;
    if m > 0 {
      BoxIsSpan(v, x, m - 1);
      SpanLast(v, x, 1 - m, m);
    } else {
      assert Span(v, x, 1, 0) == 0;
    }
  }

  lemma {:induction false} WeightedWider(v: seq<int>, x: int, r: nat, i: int)
    requires v != [] && r > 0 && 1 - r <= i <= r + 1
    ensures Weighted(v, x, r, i) == Weighted(v, x, r - 1, i) + Span(v, x, i, r)
    decreases r - i
  {
    hide C;
    if i <= r {
      WeightedWider(v, x, r, i + 1);
      var c := C(v, x + i);
      if i < r {
        assert Weight(r, i) * c == Weight(r - 1, i) * c + c;
      } else {
        assert Weight(r, i) == 1;
      }
    }
  }

  lemma {:induction false} TriIsWeighted(v: seq<int>, x: int, r: nat)
    requires v != []
    ensures Tri(v, x, r) == Weighted(v, x, r, 0 - r)
  {
    hide C, Box;
    if r > 0 {
      TriIsWeighted(v, x, r - 1);
      WeightedWider(v, x, r, 1 - r);
      BoxIsSpan(v, x, r);
      assert Weight(r, 0 - r) == 1;
    } else {
      assert Weighted(v, x, 0, 1) == 0;
    }
  }

  // ------------------------------------------------------------- sliding

  /** The k values behind x. */
  function Ahead(v: seq<int>, x: int, k: nat): int
    requires v != []
  {
    if k == 0 then 0 else Ahead(v, x, k - 1) + C(v, x + k)
  }

  /** The value at x and those before it, k in all. */
  function Back(v: seq<int>, x: int, k: nat): int
    requires v != []
  {
    if k == 0 then 0 else Back(v, x, k - 1) + C(v, x - (k - 1))
  }

  lemma {:induction false} AheadMoves(v: seq<int>, x: int, k: nat)
    requires v != []
    ensures Ahead(v, x + 1, k) == Ahead(v, x, k) - C(v, x + 1) + C(v, x + 1 + k)
  {
    hide C;
    if k > 0 { AheadMoves(v, x, k - 1); }
  }

  lemma {:induction false} BackMoves(v: seq<int>, x: int, k: nat)
    requires v != []
    ensures Back(v, x + 1, k) == Back(v, x, k) + C(v, x + 1) - C(v, x + 1 - k)
  {
    hide C;
    if k > 0 { BackMoves(v, x, k - 1); }
  }

  lemma {:induction false} BoxMoves(v: seq<int>, x: int, m: nat)
    requires v != []
    ensures Box(v, x + 1, m) == Box(v, x, m) + C(v, x + 1 + m) - C(v, x - m)
  {
    hide C;
    if m > 0 { BoxMoves(v, x, m - 1); }
  }

  /** The sum grows by what is ahead and falls by what is behind. */
  lemma {:induction false} TriMoves(v: seq<int>, x: int, m: nat)
    requires v != []
    ensures Tri(v, x + 1, m) == Tri(v, x, m) + Ahead(v, x, m + 1) - Back(v, x, m + 1)
  {
    hide C, Box;
    BoxMoves(v, x, m);
    if m > 0 {
      TriMoves(v, x, m - 1);
    } else {
      BoxZero(v, x);
      assert Ahead(v, x, 1) == Ahead(v, x, 0) + C(v, x + 1) && Back(v, x, 1) == Back(v, x, 0) + C(v, x);
    }
  }

  lemma BoxZero(v: seq<int>, x: int)
    requires v != []
    ensures Box(v, x, 0) == C(v, x)
  {
  }

  // -------------------------------------------------------------- the start

  /** The first values with falling weights. */
  function Lead(v: seq<int>, r1: nat, i: nat): int
    requires v != []
  {
    if i == 0 then 0 else Lead(v, r1, i - 1) + (r1 - i) * C(v, i)
  }

  lemma {:induction false} LeadWider(v: seq<int>, r1: nat, i: nat)
    requires v != []
    ensures Lead(v, r1 + 1, i) == Lead(v, r1, i) + Ahead(v, 0, i)
  {
    hide C;
    if i > 0 {
      LeadWider(v, r1, i - 1);
      var c := C(v, i);
      assert (r1 + 1 - i) * c == (r1 - i) * c + c;
    }
  }

  lemma {:induction false} BoxStart(v: seq<int>, m: nat)
    requires v != []
    ensures Box(v, 0, m) == (m + 1) * v[0] + Ahead(v, 0, m)
  {
    if m > 0 { BoxStart(v, m - 1); }
  }

  /** Half of (r + 1)(r + 2). */
  function Half(r: nat): nat {
    if r == 0 then 1 else Half(r - 1) + r + 1
  }

  lemma {:induction false} HalfIs(r: nat)
    ensures Half(r) == (r + 1) * (r + 2) / 2
  {
    if r > 0 {
      HalfIs(r - 1);
      assert (r + 1) * (r + 2) == r * (r + 1) + 2 * (r + 1);
    }
  }

  lemma {:induction false} TriStart(v: seq<int>, r: nat)
    requires v != []
    ensures Tri(v, 0, r) == v[0] * Half(r) + Lead(v, r + 1, r)
  {
    hide Box;
    if r > 0 {
      TriStart(v, r - 1);
      BoxStart(v, r);
      LeadWider(v, r, r);
      assert Lead(v, r, r) == Lead(v, r, r - 1) + 0 * C(v, r);
      var c := v[0];
      assert c * Half(r) == c * Half(r - 1) + (r + 1) * c;
    }
  }

  lemma {:induction false} BackStart(v: seq<int>, k: nat)
    requires v != []
    ensures Back(v, -1, k) == k * v[0]
  {
    if k > 0 { BackStart(v, k - 1); }
  }

  lemma {:induction false} AheadStart(v: seq<int>, k: nat)
    requires v != []
    ensures Ahead(v, -1, k + 1) == v[0] + Ahead(v, 0, k)
  {
    if k > 0 {
      AheadStart(v, k - 1);
    } else {
      assert Ahead(v, -1, 1) == Ahead(v, -1, 0) + C(v, 0);
    }
  }

  // --------------------------------------------------------------- bounds

  predicate Bytes(v: seq<int>) {
    forall k :: 0 <= k < |v| ==> 0 <= v[k] <= 255
  }

  lemma CByte(v: seq<int>, j: int)
    requires v != [] && Bytes(v)
    ensures 0 <= C(v, j) <= 255
  {
  }

  lemma {:induction false} BoxBound(v: seq<int>, x: int, m: nat)
    requires v != [] && Bytes(v)
    ensures 0 <= Box(v, x, m) <= 255 * (2 * m + 1)
  {
    hide C, Bytes;
    CByte(v, x - m);
    CByte(v, x + m);
    CByte(v, x);
    if m > 0 { BoxBound(v, x, m - 1); }
  }

  /** The weights are (r + 1) squared in all. */
  lemma {:induction false} TriBound(v: seq<int>, x: int, r: nat)
    requires v != [] && Bytes(v)
    ensures 0 <= Tri(v, x, r) <= 255 * ((r + 1) * (r + 1))
  {
    hide C, Bytes, Box;
    CByte(v, x);
    BoxBound(v, x, r);
    if r > 0 {
      TriBound(v, x, r - 1);
      assert (r + 1) * (r + 1) == r * r + (2 * r + 1);
    }
  }

  lemma {:induction false} Times(a: nat, b: nat, k: nat)
    requires a <= b
    ensures k * a <= k * b
  {
    if k > 0 { Times(a, b, k - 1); }
  }

  // ------------------------------------------------------------- the mean

  /** One channel: the clamped triangular mean, rounded down. */
  function Divided(v: seq<int>, r: nat): (s: seq<int>)
    requires v != []
    ensures |s| == |v|
  {
    seq(|v|, x requires 0 <= x < |v| => Weighted(v, x, r, 0 - r) / ((r + 1) * (r + 1)))
  }

  // -------------------------------------------------------------- pictures

  /** Where the bytes of a pixel begin. */
  function Pos(y: nat, x: nat, stride: nat): nat { y * stride + 4 * x }

  lemma NextPos(y: nat, x: nat, stride: nat, h: nat)
    requires y < h && 4 * x + 4 <= stride
    ensures Pos(y + 1, x, stride) == Pos(y, x, stride) + stride && Pos(y, x, stride) + 4 <= h * stride
  {
    var k := h - y - 1;
    assert (y + 1) * stride == y * stride + stride;
    assert h * stride == (y + 1) * stride + k * stride by {
      assert (y + 1 + k) * stride == (y + 1) * stride + k * stride;
    }
    assert k * stride >= 0;
  }

  /** One channel of the w pixels from at on. */
  function Chan(p: seq<byte>, at: nat, w: nat, ch: nat): (r: seq<int>)
    requires at + 4 * w <= |p| && ch < 4
    ensures |r| == w
  {
    seq(w, k requires 0 <= k < w => p[at + 4 * k + ch])
  }

  /** The first h rows of a picture. */
  predicate Picture(p: seq<byte>, w: nat, h: nat, stride: nat) {
    w > 0 && h > 0 && 4 * w <= stride && h * stride <= |p|
  }

  lemma RowWithin(p: seq<byte>, w: nat, h: nat, stride: nat, y: nat)
    requires Picture(p, w, h, stride) && y < h
    ensures y * stride + 4 * w <= |p|
  {
    NextPos(y, w - 1, stride, h);
  }

  /** A channel with every row blurred. */
  function BlurredRows(p: seq<byte>, w: nat, h: nat, stride: nat, r: nat, ch: nat): (rows: seq<seq<int>>)
    requires Picture(p, w, h, stride) && ch < 4
    ensures |rows| == h && forall y :: 0 <= y < h ==> |rows[y]| == w
  {
    seq(h, y requires 0 <= y < h => (RowWithin(p, w, h, stride, y); Divided(Chan(p, y * stride, w, ch), r)))
  }

  /** The first y rows stand one behind the other. */
  predicate RowsIn(g: seq<int>, rows: seq<seq<int>>, w: nat, y: nat) {
    forall j: nat :: j < y && j < |rows| ==> j * w + w <= |g| && g[j * w..j * w + w] == rows[j]
  }

  lemma RowEnds(j: nat, y: nat, w: nat)
    requires j < y
    ensures j * w + w <= y * w
  {
    var k := y - j - 1;
    assert (j + 1 + k) * w == j * w + 1 * w + k * w;
    assert k * w >= 0;
  }

  lemma RowsMore(g: seq<int>, g': seq<int>, rows: seq<seq<int>>, w: nat, y: nat)
    requires RowsIn(g, rows, w, y) && y < |rows| && y * w + w <= |g| == |g'|
    requires g'[..y * w] == g[..y * w] && g'[y * w..y * w + w] == rows[y]
    ensures RowsIn(g', rows, w, y + 1)
  {
    forall j: nat | j < y + 1 && j < |rows| ensures j * w + w <= |g'| && g'[j * w..j * w + w] == rows[j] {
      if j < y {
        RowEnds(j, y, w);
        assert g[j * w..j * w + w] == rows[j];
        assert g'[j * w..j * w + w] == g'[..y * w][j * w..j * w + w] == g[..y * w][j * w..j * w + w];
      }
    }
  }

  lemma NoRows(g: seq<int>, rows: seq<seq<int>>, w: nat)
    ensures RowsIn(g, rows, w, 0)
  {
  }
}
