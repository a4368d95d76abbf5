/** Known answers of the two hashes for literal inputs.  They reach every constant, rotation and shift, and
    fix the order in which bytes, words, lanes and the length come in. */
module XxSamples {
  import opened Lz4Format

  /** "abc" */
  const ABC: seq<byte> := [97, 98, 99]

  /** "Hello, world!" */
  const GREETING: seq<byte> := [72, 101, 108, 108, 111, 44, 32, 119, 111, 114, 108, 100, 33]

  /** "Nobody inspects the spammish repetition" */
  const SENTENCE: seq<byte> := NOBODY + THE + REPETITION

  const NOBODY: seq<byte> := [78, 111, 98, 111, 100, 121, 32, 105, 110, 115, 112, 101, 99, 116, 115, 32]

  const THE: seq<byte> := [116, 104, 101, 32, 115, 112, 97, 109, 109, 105, 115, 104, 32, 114, 101, 112]

  const REPETITION: seq<byte> := [101, 116, 105, 116, 105, 111, 110]
}

/** XXH32. */
module XxAnswers32 {
  import opened Lz4Format
  import opened XxStripes
  import opened XxHash32
  import opened XxSamples

  // --------------------------------------------------- one step from its parts

  lemma RoundIs(seed: bv32, input: bv32, m: bv32, r: bv32)
    requires m == Times(input, 2246822519) && r == Times(Plus(seed, m).RotateLeft(13), 2654435761)
    ensures Round(seed, input) == r
  {
    hide Times, Plus;
  }

  lemma ByteIs(a: byte, b: byte)
    requires a == b
    ensures a as bv32 == b as bv32
  {
  }

  lemma WordIs(s: seq<byte>, i: nat, a: byte, b: byte, c: byte, d: byte)
    requires i + 4 <= |s| && s[i] == a && s[i + 1] == b && s[i + 2] == c && s[i + 3] == d
    ensures Word(s, i) == Four(a as bv32, b as bv32, c as bv32, d as bv32)
  {
    hide Four;
    ByteIs(s[i], a);
    ByteIs(s[i + 1], b);
    ByteIs(s[i + 2], c);
    ByteIs(s[i + 3], d);
  }

  lemma StripeIs(l: Lanes, s: seq<byte>, l': Lanes)
    requires |s| == STRIPE
    requires Round(l.v1, Word(s, 0)) == l'.v1 && Round(l.v2, Word(s, 4)) == l'.v2
    requires Round(l.v3, Word(s, 8)) == l'.v3 && Round(l.v4, Word(s, 12)) == l'.v4
    ensures Stripe(l, s) == l'
  {
    hide Round, Word;
  }

  lemma Word4(h: bv32, s: seq<byte>, w: bv32, m: bv32, r: bv32)
    requires |s| >= 4 && Word(s, 0) == w
    requires m == Times(w, 3266489917) && r == Times(Plus(h, m).RotateLeft(17), 668265263)
    ensures Tail(h, s) == Tail(r, s[4..])
  {
    hide Times, Plus, Word;
  }

  lemma Byte1(h: bv32, s: seq<byte>, b: byte, m: bv32, r: bv32)
    requires 0 < |s| < 4 && s[0] == b
    requires m == Times(b as bv32, 374761393) && r == Times(Plus(h, m).RotateLeft(11), 2654435761)
    ensures Tail(h, s) == Tail(r, s[1..])
  {
    hide Times, Plus;
  }

  lemma Ends(h: bv32, s: seq<byte>)
    requires s == []
    ensures Tail(h, s) == h
  {
  }

  lemma ShortHash(data: seq<byte>, seed: bv32, h: bv32, t: bv32)
    requires |data| < STRIPE && h == AddLength(Short(seed), |data|) && t == Tail(h, data)
    ensures Hash(data, seed) == Avalanche(t)
  {
    hide Avalanche, Tail, AddLength, Short;
    assert data[0..] == data;
  }

  lemma LongHash(data: seq<byte>, seed: bv32, a: seq<byte>, c: seq<byte>, l: Lanes, h: bv32, t: bv32)
    requires data == a + c && |a| >= STRIPE && |a| % STRIPE == 0 && |c| < STRIPE
    requires l == LanesOf(seed, a) && h == AddLength(Converge(l), |data|) && t == Tail(h, c)
    ensures Hash(data, seed) == Avalanche(t)
  {
    hide Avalanche, Tail, AddLength, Converge, LanesOf;
    assert data[..|a|] == a && data[|a|..] == c;
  }

  lemma TwoStripes(seed: bv32, a: seq<byte>, b: seq<byte>, l: Lanes, l': Lanes)
    requires |a| == |b| == STRIPE && l == Stripe(Init(seed), a) && l' == Stripe(l, b)
    ensures LanesOf(seed, a + b) == l'
  {
    hide Stripe, Init;
    StripesSplit(Stripe, STRIPE, Init(seed), a, b);
    StripesOne(Stripe, STRIPE, Init(seed), a);
    StripesOne(Stripe, STRIPE, l, b);
  }

  // -------------------------------------------------------------- the answers

  lemma Nothing()
    ensures Hash([], 0) == 0x02CC5D05
  {
  }

  lemma Abc()
    ensures Hash(ABC, 0) == 0x32D153FF
  {
    hide Tail, Hash;
    assert ABC[1..][1..] == ABC[2..];
    Byte1(0x165667B4, ABC, 97, 0x76BD4A11, 0xDCA1DBE8);
    Byte1(0xDCA1DBE8, ABC[1..], 98, 0x8D13B1C2, 0x4F80FD3D);
    Byte1(0x4F80FD3D, ABC[2..], 99, 0xA36A1973, 0x760A1E67);
    Ends(0x760A1E67, ABC[2..][1..]);
    ShortHash(ABC, 0, 0x165667B4, 0x760A1E67);
  }

  /** The descriptors of two frame headers. */
  lemma PlainDescriptor(s: seq<byte>)
    requires s == [0x40, 0x40]
    ensures Hash(s, 0) == 0x101EC066
  {
    hide Tail, Hash;
    Byte1(0x165667B3, s, 64, 0x9599EC40, 0x3326B5AF);
    Byte1(0x3326B5AF, s[1..], 64, 0x9599EC40, 0x276F6466);
    Ends(0x276F6466, s[1..][1..]);
    ShortHash(s, 0, 0x165667B3, 0x276F6466);
  }

  lemma UsualDescriptor(s: seq<byte>)
    requires s == [0x64, 0x40]
    ensures Hash(s, 0) == 0x95C0A77C
  {
    hide Tail, Hash;
    Byte1(0x165667B3, s, 100, 0xB9C08124, 0x15743680);
    Byte1(0x15743680, s[1..], 64, 0x9599EC40, 0x0EA849D8);
    Ends(0x0EA849D8, s[1..][1..]);
    ShortHash(s, 0, 0x165667B3, 0x0EA849D8);
  }

  lemma FirstWords()
    ensures Word(NOBODY, 0) == 0x6F626F4E && Word(NOBODY, 4) == 0x69207964
  {
    hide Word;
    WordIs(NOBODY, 0, 78, 111, 98, 111);
    WordIs(NOBODY, 4, 100, 121, 32, 105);
  }

  lemma FirstWordsMore()
    ensures Word(NOBODY, 8) == 0x6570736E && Word(NOBODY, 12) == 0x20737463
  {
    hide Word;
    WordIs(NOBODY, 8, 110, 115, 112, 101);
    WordIs(NOBODY, 12, 99, 116, 115, 32);
  }

  lemma FirstStripe()
    ensures Stripe(Lanes(0xC25ABDD9, 0x24234428, 0x9E3779B1, 0x00000000), NOBODY)
         == Lanes(0xF91E4BA1, 0xC52BB47A, 0x60B07041, 0x18FC10EC)
  {
    hide Round, Word, Stripe;
    FirstWords();
    FirstWordsMore();
    RoundIs(0xC25ABDD9, 0x6F626F4E, 0x252F4942, 0xF91E4BA1);
    RoundIs(0x24234428, 0x69207964, 0xE0AD557C, 0xC52BB47A);
    RoundIs(0x9E3779B1, 0x6570736E, 0xFE547422, 0x60B07041);
    RoundIs(0x00000000, 0x20737463, 0x75623805, 0x18FC10EC);
    StripeIs(Lanes(0xC25ABDD9, 0x24234428, 0x9E3779B1, 0x00000000), NOBODY,
             Lanes(0xF91E4BA1, 0xC52BB47A, 0x60B07041, 0x18FC10EC));
  }

  lemma SecondWords()
    ensures Word(THE, 0) == 0x20656874 && Word(THE, 4) == 0x6D617073
  {
    hide Word;
    WordIs(THE, 0, 116, 104, 101, 32);
    WordIs(THE, 4, 115, 112, 97, 109);
  }

  lemma SecondWordsMore()
    ensures Word(THE, 8) == 0x6873696D && Word(THE, 12) == 0x70657220
  {
    hide Word;
    WordIs(THE, 8, 109, 105, 115, 104);
    WordIs(THE, 12, 32, 114, 101, 112);
  }

  lemma SecondStripe()
    ensures Stripe(Lanes(0xF91E4BA1, 0xC52BB47A, 0x60B07041, 0x18FC10EC), THE)
         == Lanes(0x1BACC8D5, 0x59BCA798, 0xA06AD552, 0x2C9B2152)
  {
    hide Round, Word, Stripe;
    SecondWords();
    SecondWordsMore();
    RoundIs(0xF91E4BA1, 0x20656874, 0x3A0B15EC, 0x1BACC8D5);
    RoundIs(0xC52BB47A, 0x6D617073, 0xB3970375, 0x59BCA798);
    RoundIs(0x60B07041, 0x6873696D, 0x06E503AB, 0xA06AD552);
    RoundIs(0x18FC10EC, 0x70657220, 0xAE954CE0, 0x2C9B2152);
    StripeIs(Lanes(0xF91E4BA1, 0xC52BB47A, 0x60B07041, 0x18FC10EC), THE,
             Lanes(0x1BACC8D5, 0x59BCA798, 0xA06AD552, 0x2C9B2152));
  }

  lemma Rest(h: bv32, rest: seq<byte>)
    requires h == 0x484B3A6F && rest == REPETITION
    ensures Tail(h, rest) == 0xC76309B5
  {
    hide Tail, Word;
    assert rest[4..][1..] == rest[5..] && rest[5..][1..] == rest[6..];
    WordIs(rest, 0, 101, 116, 105, 116);
    Word4(h, rest, 0x74697465, 0xE2776211, 0xDAB4CA6B);
    Byte1(0xDAB4CA6B, rest[4..], 105, 0x29708799, 0xD1ECCFD1);
    Byte1(0xD1ECCFD1, rest[5..], 111, 0xAF76F5BF, 0x0F8D7E9B);
    Byte1(0x0F8D7E9B, rest[6..], 110, 0x99208E0E, 0xC76309B5);
    Ends(0xC76309B5, rest[6..][1..]);
  }

  lemma Sentence(data: seq<byte>, seed: bv32)
    requires data == SENTENCE && seed == 2654435761
    ensures Hash(data, seed) == 0xC9E89E68
  {
    hide Stripe, Tail, Hash;
    FirstStripe();
    SecondStripe();
    TwoStripes(seed, NOBODY, THE, Lanes(0xF91E4BA1, 0xC52BB47A, 0x60B07041, 0x18FC10EC),
               Lanes(0x1BACC8D5, 0x59BCA798, 0xA06AD552, 0x2C9B2152));
    Rest(0x484B3A6F, REPETITION);
    LongHash(data, seed, NOBODY + THE, REPETITION,
             Lanes(0x1BACC8D5, 0x59BCA798, 0xA06AD552, 0x2C9B2152), 0x484B3A6F, 0xC76309B5);
  }
}

/** XXH64. */
module XxAnswers64 {
  import opened Lz4Format
  import opened XxStripes
  import opened XxHash64
  import opened XxSamples

  // --------------------------------------------------- one step from its parts

  lemma RoundIs(seed: bv64, input: bv64, m: bv64, r: bv64)
    requires m == Times(input, 14029467366897019727) && r == Times(Plus(seed, m).RotateLeft(31), 11400714785074694791)
    ensures Round(seed, input) == r
  {
    hide Times, Plus;
  }

  lemma MergeIs(acc: bv64, val: bv64, m: bv64, k: bv64, r: bv64)
    requires m == Times(val, 14029467366897019727) && k == Times(Plus(0, m).RotateLeft(31), 11400714785074694791)
    requires r == Plus(Times(acc ^ k, 11400714785074694791), 9650029242287828579)
    ensures MergeRound(acc, val) == r
  {
    hide Times, Plus, Round;
    RoundIs(0, val, m, k);
  }

  lemma ByteIs(a: byte, b: byte)
    requires a == b
    ensures a as bv64 == b as bv64
  {
  }

  lemma HalfIs(s: seq<byte>, i: nat, a: byte, b: byte, c: byte, d: byte)
    requires i + 4 <= |s| && s[i] == a && s[i + 1] == b && s[i + 2] == c && s[i + 3] == d
    ensures Half(s, i) == Four(a as bv64, b as bv64, c as bv64, d as bv64)
  {
    hide Four;
    ByteIs(s[i], a);
    ByteIs(s[i + 1], b);
    ByteIs(s[i + 2], c);
    ByteIs(s[i + 3], d);
  }

  lemma WordIs(s: seq<byte>, i: nat, low: bv64, high: bv64)
    requires i + 8 <= |s| && Half(s, i) == low && Half(s, i + 4) == high
    ensures Word(s, i) == low | (high << 32)
  {
    hide Half;
  }

  lemma StripeIs(l: Lanes, s: seq<byte>, l': Lanes)
    requires |s| == STRIPE
    requires Round(l.v1, Word(s, 0)) == l'.v1 && Round(l.v2, Word(s, 8)) == l'.v2
    requires Round(l.v3, Word(s, 16)) == l'.v3 && Round(l.v4, Word(s, 24)) == l'.v4
    ensures Stripe(l, s) == l'
  {
    hide Round, Word;
  }

  lemma ConvergeIs(l: Lanes, h: bv64, h1: bv64, h2: bv64, h3: bv64, h4: bv64)
    requires h == Plus(Plus(Plus(l.v1.RotateLeft(1), l.v2.RotateLeft(7)), l.v3.RotateLeft(12)), l.v4.RotateLeft(18))
    requires h1 == MergeRound(h, l.v1) && h2 == MergeRound(h1, l.v2)
    requires h3 == MergeRound(h2, l.v3) && h4 == MergeRound(h3, l.v4)
    ensures Converge(l) == h4
  {
    hide MergeRound, Plus;
  }

  lemma Word8(h: bv64, s: seq<byte>, w: bv64, m: bv64, k: bv64, r: bv64)
    requires |s| >= 8 && Word(s, 0) == w
    requires m == Times(w, 14029467366897019727) && k == Times(Plus(0, m).RotateLeft(31), 11400714785074694791)
    requires r == Plus(Times((h ^ k).RotateLeft(27), 11400714785074694791), 9650029242287828579)
    ensures Tail(h, s) == Tail(r, s[8..])
  {
    hide Times, Plus, Word, Round;
    RoundIs(0, w, m, k);
  }

  lemma Word4(h: bv64, s: seq<byte>, w: bv64, m: bv64, r: bv64)
    requires 4 <= |s| < 8 && Half(s, 0) == w
    requires m == Times(w, 11400714785074694791)
    requires r == Plus(Times((h ^ m).RotateLeft(23), 14029467366897019727), 1609587929392839161)
    ensures Tail(h, s) == Tail(r, s[4..])
  {
    hide Times, Plus, Half;
  }

  lemma Byte1(h: bv64, s: seq<byte>, b: byte, m: bv64, r: bv64)
    requires 0 < |s| < 4 && s[0] == b
    requires m == Times(b as bv64, 2870177450012600261) && r == Times((h ^ m).RotateLeft(11), 11400714785074694791)
    ensures Tail(h, s) == Tail(r, s[1..])
  {
    hide Times;
  }

  lemma Ends(h: bv64, s: seq<byte>)
    requires s == []
    ensures Tail(h, s) == h
  {
  }

  lemma ShortHash(data: seq<byte>, seed: bv64, h: bv64, t: bv64)
    requires |data| < STRIPE && h == AddLength(Short(seed), |data|) && t == Tail(h, data)
    ensures Hash(data, seed) == Avalanche(t)
  {
    hide Avalanche, Tail, AddLength, Short;
    assert data[0..] == data;
  }

  lemma LongHash(data: seq<byte>, seed: bv64, a: seq<byte>, c: seq<byte>, l: Lanes, h: bv64, t: bv64)
    requires data == a + c && |a| == STRIPE && |c| < STRIPE
    requires l == Stripe(Init(seed), a) && h == AddLength(Converge(l), |data|) && t == Tail(h, c)
    ensures Hash(data, seed) == Avalanche(t)
  {
    hide Avalanche, Tail, AddLength, Converge, Stripe, Init;
    assert data[..|a|] == a && data[|a|..] == c;
    StripesOne(Stripe, STRIPE, Init(seed), a);
  }

  // -------------------------------------------------------------- the answers

  lemma Nothing()
    ensures Hash([], 0) == 0xEF46DB3751D8E999
  {
  }

  lemma GreetingWord()
    ensures Word(GREETING, 0) == 0x77202C6F6C6C6548
  {
    hide Word, Half;
    HalfIs(GREETING, 0, 72, 101, 108, 108);
    HalfIs(GREETING, 4, 111, 44, 32, 119);
    WordIs(GREETING, 0, 0x6C6C6548, 0x77202C6F);
  }

  lemma GreetingHalf()
    ensures Half(GREETING[8..], 0) == 0x646C726F
  {
    hide Half;
    HalfIs(GREETING[8..], 0, 111, 114, 108, 100);
  }

  /** A word of eight bytes, one of four, and a byte. */
  method Greeting() returns (h: bv64)
    ensures h == 0x163D9956ED14371A
  {
    hide Tail, Hash, Word, Half;
    var data := GREETING;
    GreetingWord();
    GreetingHalf();
    assert data[8..][4..] == data[12..];
    Word8(0x27D4EB2FB48DE183, data, 0x77202C6F6C6C6548,
          0x903D5E43CE0C5938, 0x3477AB4A26A96467, 0x7EC704DB5BD2C3F8);
    Word4(0x7EC704DB5BD2C3F8, data[8..], 0x646C726F, 0xFD736C323E60EE89, 0x6C6E207934678C05);
    Byte1(0x6C6E207934678C05, data[12..], 33, 0x22725111E1236065, 0xD688BE6651F2A910);
    Ends(0xD688BE6651F2A910, data[12..][1..]);
    ShortHash(data, 2654435761, 0x27D4EB2FB48DE183, 0xD688BE6651F2A910);
    h := XXH64(data, 2654435761);
  }

  lemma FirstWord()
    ensures Word(NOBODY, 0) == 0x692079646F626F4E
  {
    hide Half, Word;
    HalfIs(NOBODY, 0, 78, 111, 98, 111);
    HalfIs(NOBODY, 4, 100, 121, 32, 105);
    WordIs(NOBODY, 0, 0x6F626F4E, 0x69207964);
  }

  lemma SecondWord()
    ensures Word(NOBODY, 8) == 0x207374636570736E
  {
    hide Half, Word;
    HalfIs(NOBODY, 8, 110, 115, 112, 101);
    HalfIs(NOBODY, 12, 99, 116, 115, 32);
    WordIs(NOBODY, 8, 0x6570736E, 0x20737463);
  }

  lemma ThirdWord()
    ensures Word(THE, 0) == 0x6D61707320656874
  {
    hide Half, Word;
    HalfIs(THE, 0, 116, 104, 101, 32);
    HalfIs(THE, 4, 115, 112, 97, 109);
    WordIs(THE, 0, 0x20656874, 0x6D617073);
  }

  lemma FourthWord()
    ensures Word(THE, 8) == 0x706572206873696D
  {
    hide Half, Word;
    HalfIs(THE, 8, 109, 105, 115, 104);
    HalfIs(THE, 12, 32, 114, 101, 112);
    WordIs(THE, 8, 0x6873696D, 0x70657220);
  }

  lemma OneStripe()
    ensures Stripe(Lanes(0x60EA27EF4BF82F87, 0xC2B2AE3DC60C6500,
                        0x000000009E3779B1, 0x61C8864F184BAF2A), NOBODY + THE)
         == Lanes(0xC53CB604A9F248D2, 0x0B111636018F92CF,
                  0xBD43C36F50580FCA, 0x0BF7CF6A72142A4A)
  {
    hide Round, Word, Stripe;
    FirstWord();
    SecondWord();
    ThirdWord();
    FourthWord();
    WordWithin(NOBODY + THE, 0, NOBODY, 0);
    WordWithin(NOBODY + THE, 0, NOBODY, 8);
    WordWithin(NOBODY + THE, 16, THE, 0);
    WordWithin(NOBODY + THE, 16, THE, 8);
    RoundIs(0x60EA27EF4BF82F87, 0x692079646F626F4E, 0x06F06E4CCA24F312,
            0xC53CB604A9F248D2);
    RoundIs(0xC2B2AE3DC60C6500, 0x207374636570736E, 0xBEF890B5E0C198F2,
            0x0B111636018F92CF);
    RoundIs(0x000000009E3779B1, 0x6D61707320656874, 0x0A6264CC423DB7CC,
            0xBD43C36F50580FCA);
    RoundIs(0x61C8864F184BAF2A, 0x706572206873696D, 0x7EC4417E16A897A3,
            0x0BF7CF6A72142A4A);
    StripeIs(Lanes(0x60EA27EF4BF82F87, 0xC2B2AE3DC60C6500,
                   0x000000009E3779B1, 0x61C8864F184BAF2A), NOBODY + THE,
             Lanes(0xC53CB604A9F248D2, 0x0B111636018F92CF,
                   0xBD43C36F50580FCA, 0x0BF7CF6A72142A4A));
  }

  lemma Converged()
    ensures Converge(Lanes(0xC53CB604A9F248D2, 0x0B111636018F92CF,
                          0xBD43C36F50580FCA, 0x0BF7CF6A72142A4A))
         == 0x68015F114DC72DD4
  {
    hide MergeRound, Converge;
    MergeIs(0x8CE5446045D2D4DD, 0xC53CB604A9F248D2, 0xFCD12F3826853ECE,
            0x8314A8F568FD0B44, 0xD73F86B01BD35212);
    MergeIs(0xD73F86B01BD35212, 0x0B111636018F92CF, 0x9F8C45AF637E52E1,
            0xB5A93F1297570561, 0xC5A4827E4F0E8A08);
    MergeIs(0xC5A4827E4F0E8A08, 0xBD43C36F50580FCA, 0x77E780917AF34D56,
            0x46E1A709DD5B35F8, 0xE44EEC5C78AE45F3);
    MergeIs(0xE44EEC5C78AE45F3, 0x0BF7CF6A72142A4A, 0x8767A3580252FAD6,
            0x36DD9CE86C2949B4, 0x68015F114DC72DD4);
    ConvergeIs(Lanes(0xC53CB604A9F248D2, 0x0B111636018F92CF,
                     0xBD43C36F50580FCA, 0x0BF7CF6A72142A4A),
               0x8CE5446045D2D4DD, 0xD73F86B01BD35212, 0xC5A4827E4F0E8A08,
               0xE44EEC5C78AE45F3, 0x68015F114DC72DD4);
  }

  /** A stripe, a word of four bytes, and three bytes. */
  method Sentence() returns (h: bv64)
    ensures h == 0x56DB22DD5B051147
  {
    hide Stripe, Tail, Hash, Converge, Half;
    var data, rest := SENTENCE, REPETITION;
    OneStripe();
    Converged();
    assert rest[4..][1..] == rest[5..] && rest[5..][1..] == rest[6..];
    HalfIs(rest, 0, 101, 116, 105, 116);
    Word4(0x68015F114DC72DFB, rest, 0x74697465, 0xE9863933EB2B1343, 0x5E753427DF152F36);
    Byte1(0x5E753427DF152F36, rest[4..], 105, 0x5654765029708FCD, 0x6127208338715447);
    Byte1(0x6127208338715447, rest[5..], 111, 0x4551F96AAF76FE6B, 0x73891AE8E6B0D775);
    Byte1(0x73891AE8E6B0D775, rest[6..], 110, 0x1D7D0E3B992096A6, 0x3B74373CA59CE1C1);
    Ends(0x3B74373CA59CE1C1, rest[6..][1..]);
    LongHash(data, 2654435761, NOBODY + THE, rest,
             Lanes(0xC53CB604A9F248D2, 0x0B111636018F92CF,
                   0xBD43C36F50580FCA, 0x0BF7CF6A72142A4A),
             0x68015F114DC72DFB, 0x3B74373CA59CE1C1);
    h := XXH64(data, 2654435761);
  }
}
