/** The UTF-8 check: exactly the encodings of Unicode scalar values pass. */
module Utf8 {
  // ------------------------------------------------------------ what is meant

  predicate Scalar(c: bv32) {
    c < 0xD800 || 0xE000 <= c < 0x110000
  }

  function Low(c: bv32): bv8 { (c & 0xFF) as bv8 }

  /** The first byte: the mark of its length, and the highest bits. */
  function Lead(mark: bv32, c: bv32, n: bv5): bv8 { Low(mark | (c >> n)) }

  /** A later byte: six bits, those n places up. */
  function Tail(c: bv32, n: bv5): bv8 { Low(0x80 | ((c >> n) & 0x3F)) }

  /** Section 3 of RFC 3629. */
  function Encode(c: bv32): (r: seq<bv8>)
    ensures 1 <= |r| <= 4
  {
    if c < 0x80 then [Low(c)]
    else if c < 0x800 then [Lead(0xC0, c, 6), Tail(c, 0)]
    else if c < 0x10000 then [Lead(0xE0, c, 12), Tail(c, 6), Tail(c, 0)]
    else [Lead(0xF0, c, 18), Tail(c, 12), Tail(c, 6), Tail(c, 0)]
  }

  function EncodeAll(cs: seq<bv32>): seq<bv8> {
    if cs == [] then [] else Encode(cs[0]) + EncodeAll(cs[1..])
  }

  predicate AllScalar(cs: seq<bv32>) {
    forall c :: c in cs ==> Scalar(c)
  }

  ghost predicate WellFormed(s: seq<bv8>) {
    exists cs :: AllScalar(cs) && EncodeAll(cs) == s
  }

  // ------------------------------------------------- the grammar of section 4

  predicate Trail(b: bv8) { 0x80 <= b <= 0xBF }

  predicate Two(a: bv8, b: bv8) { 0xC2 <= a <= 0xDF && Trail(b) }

  predicate Three(a: bv8, b: bv8, c: bv8) {
    && Trail(c)
    && ((a == 0xE0 && 0xA0 <= b <= 0xBF) || (0xE1 <= a <= 0xEC && Trail(b))
        || (a == 0xED && 0x80 <= b <= 0x9F) || (0xEE <= a <= 0xEF && Trail(b)))
  }

  predicate Four(a: bv8, b: bv8, c: bv8, d: bv8) {
    && Trail(c) && Trail(d)
    && ((a == 0xF0 && 0x90 <= b <= 0xBF) || (0xF1 <= a <= 0xF3 && Trail(b)) || (a == 0xF4 && 0x80 <= b <= 0x8F))
  }

  /** The length of the character at the head, or 0 if there is none. */
  function Head(s: seq<bv8>): (n: nat)
    ensures n <= |s| && n <= 4
  {
    if |s| >= 1 && s[0] < 0x80 then 1
    else if |s| >= 2 && Two(s[0], s[1]) then 2
    else if |s| >= 3 && Three(s[0], s[1], s[2]) then 3
    else if |s| >= 4 && Four(s[0], s[1], s[2], s[3]) then 4
    else 0
  }

  predicate Valid(s: seq<bv8>)
    decreases |s|
  {
    s == [] || (Head(s) > 0 && Valid(s[Head(s)..]))
  }

  // -------------------------------------------------- grammar and encodings

  function First(a: bv8, mask: bv32): bv32 { a as bv32 & mask }

  function Join(a: bv32, b: bv8): bv32 { (a << 6) | (b as bv32 & 0x3F) }

  /** The scalar value of a character. */
  function Decode(s: seq<bv8>): bv32
    requires 1 <= |s| <= 4
  {
    if |s| == 1 then s[0] as bv32
    else if |s| == 2 then Join(First(s[0], 0x1F), s[1])
    else if |s| == 3 then Join(Join(First(s[0], 0x0F), s[1]), s[2])
    else Join(Join(Join(First(s[0], 0x07), s[1]), s[2]), s[3])
  }

  lemma HeadDecodes(s: seq<bv8>)
    requires Head(s) > 0
    ensures var t := s[..Head(s)]; Scalar(Decode(t)) && Encode(Decode(t)) == t
  {
    hide Encode, Decode, Scalar;
    var n := Head(s);
    var t := s[..n];
    if n == 1 { EncodeDecoded1(t); }
    if n == 2 { EncodeDecoded2(t); }
    if n == 3 { EncodeDecoded3(t); }
    if n == 4 { EncodeDecoded4(t); }
  }

  lemma EncodeDecoded1(t: seq<bv8>)
    requires |t| == 1 && t[0] < 0x80
    ensures Scalar(Decode(t)) && Encode(Decode(t)) == t
  {
    assert t == [t[0]];
  }

  lemma EncodeDecoded2(t: seq<bv8>)
    requires |t| == 2 && Two(t[0], t[1])
    ensures Scalar(Decode(t)) && Encode(Decode(t)) == t
  {
    hide First, Join, Lead, Tail, Two;
    TwoDecodes(t[0], t[1]);
    assert t == [t[0], t[1]];
  }

  lemma EncodeDecoded3(t: seq<bv8>)
    requires |t| == 3 && Three(t[0], t[1], t[2])
    ensures Scalar(Decode(t)) && Encode(Decode(t)) == t
  {
    hide First, Join, Lead, Tail, Three, Scalar;
    ThreeDecodes(t[0], t[1], t[2]);
    assert t == [t[0], t[1], t[2]];
  }

  lemma EncodeDecoded4(t: seq<bv8>)
    requires |t| == 4 && Four(t[0], t[1], t[2], t[3])
    ensures Scalar(Decode(t)) && Encode(Decode(t)) == t
  {
    hide First, Join, Lead, Tail, Four;
    FourDecodes(t[0], t[1], t[2], t[3]);
    assert t == [t[0], t[1], t[2], t[3]];
  }

  lemma TwoDecodes(a: bv8, b: bv8)
    requires Two(a, b)
    ensures var x := Join(First(a, 0x1F), b);
            0x80 <= x < 0x800 && Lead(0xC0, x, 6) == a && Tail(x, 0) == b
  {
  }

  lemma ThreeDecodes(a: bv8, b: bv8, c: bv8)
    requires Three(a, b, c)
    ensures var x := Join(Join(First(a, 0x0F), b), c);
            && 0x800 <= x < 0x10000 && Scalar(x)
            && Lead(0xE0, x, 12) == a && Tail(x, 6) == b && Tail(x, 0) == c
  {
  }

  lemma FourDecodes(a: bv8, b: bv8, c: bv8, d: bv8)
    requires Four(a, b, c, d)
    ensures var x := Join(Join(Join(First(a, 0x07), b), c), d);
            && 0x10000 <= x < 0x110000
            && Lead(0xF0, x, 18) == a && Tail(x, 12) == b && Tail(x, 6) == c && Tail(x, 0) == d
  {
  }

  lemma EncodeHead(c: bv32, rest: seq<bv8>)
    requires Scalar(c)
    ensures Head(Encode(c) + rest) == |Encode(c)|
  {
    var s := Encode(c) + rest;
    if c < 0x80 {
      assert Low(c) < 0x80;
    } else if c < 0x800 {
      assert Two(Lead(0xC0, c, 6), Tail(c, 0));
    } else if c < 0x10000 {
      assert Three(Lead(0xE0, c, 12), Tail(c, 6), Tail(c, 0));
    } else {
      assert Four(Lead(0xF0, c, 18), Tail(c, 12), Tail(c, 6), Tail(c, 0));
    }
  }

  lemma {:induction false} EncodedValid(cs: seq<bv32>)
    requires AllScalar(cs)
    ensures Valid(EncodeAll(cs))
  {
    if cs != [] {
      hide Encode, Head, Scalar;
      var rest := EncodeAll(cs[1..]);
      assert cs[0] in cs;
      EncodeHead(cs[0], rest);
      assert (Encode(cs[0]) + rest)[|Encode(cs[0])|..] == rest;
      EncodedValid(cs[1..]);
    }
  }

  lemma {:induction false} ValidEncoded(s: seq<bv8>) returns (cs: seq<bv32>)
    requires Valid(s)
    ensures AllScalar(cs) && EncodeAll(cs) == s
    decreases |s|
  {
    hide Encode, Head, Scalar, Decode;
    cs := [];
    if s != [] {
      HeadDecodes(s);
      var t := s[..Head(s)];
      var tail := ValidEncoded(s[Head(s)..]);
      cs := [Decode(t)] + tail;
      assert cs[1..] == tail && t + s[Head(s)..] == s;
    }
  }

  /** The grammar of section 4 describes the encodings of section 3. */
  lemma ValidIff(s: seq<bv8>)
    ensures Valid(s) <==> WellFormed(s)
  {
    hide Valid, EncodeAll, AllScalar;
    if Valid(s) {
      var cs := ValidEncoded(s);
    }
    if WellFormed(s) {
      var cs :| AllScalar(cs) && EncodeAll(cs) == s;
      EncodedValid(cs);
    }
  }

  // ---------------------------------------------------------------- the check

  /** check_utf8, for data with a zero byte behind the text. */
  method CheckUtf8(data: seq<bv8>, len: nat) returns (r: bool)
    requires |data| == len + 1 && data[len] == 0
    ensures r <==> WellFormed(data[..len])
  {
    hide Valid, WellFormed;
    ghost var text := data[..len];
    ValidIff(text);
    var p := 0;
    assert text[0..] == text;
    while true
      invariant p <= len && (Valid(text) <==> Valid(text[p..]))
      decreases len - p
    {
      var n, good := CheckOne(data, len, p);
      Step(text, p);
      if !good { return false; }
      p := p + n;
      if p == len + 1 { return true; }
      assert text[p - n..][n..] == text[p..];
    }
  }

  lemma Step(text: seq<bv8>, p: nat)
    requires p <= |text|
    ensures var s := text[p..]; Valid(s) <==> s == [] || (Head(s) > 0 && Valid(s[Head(s)..]))
  {
  }

  /** The body of the loop: the bytes it takes, and whether it goes on; the zero at the end counts as a character. */
  method CheckOne(data: seq<bv8>, len: nat, p: nat) returns (n: nat, good: bool)
    requires |data| == len + 1 && data[len] == 0 && p <= len
    ensures p == len ==> good && n == 1
    ensures p < len ==> var s := data[..len][p..]; (good <==> Head(s) > 0) && (good ==> n == Head(s))
  {
    ghost var s := data[..len][p..];
    var a := data[p] as bv32;
    n, good := 1, true;
    if a & 0x80 == 0 {
      return;
    }
    assert p < len;
    HighHead(s);
    if a & 0x40 == 0 { return n, false; }
    var b := data[p + 1] as bv32;
    if b & 0xC0 != 0x80 { return n, false; }
    assert p + 1 < len;
    n := 2;
    if a & 0x20 == 0 {
      good := a & 0x1E > 0;
      return;
    }
    var c := data[p + 2] as bv32;
    if c & 0xC0 != 0x80 { return n, false; }
    assert p + 2 < len;
    n := 3;
    if a & 0x10 == 0 {
      var x := ((a & 0x0F) << 6) | (b & 0x20);
      good := x != 0 && x != 0x360;
      return;
    }
    var d := data[p + 3] as bv32;
    if d & 0xC0 != 0x80 { return n, false; }
    assert p + 3 < len;
    n := 4;
    if a & 0x08 == 0 {
      var t := ((a & 0x07) << 6) | (b & 0x30);
      good := 0 < t && t < 0x110;
      return;
    }
    good := false;
  }

  lemma HighHead(s: seq<bv8>)
    requires s != [] && s[0] >= 0x80
    ensures Head(s) != 1
  {
  }
}
