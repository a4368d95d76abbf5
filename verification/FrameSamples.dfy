/** Frames given byte by byte: what the constants of the format are, and where every field is. */
module FrameSamples {
  import opened Lz4Format
  import opened FrameFormat
  import opened FrameWriter
  import XxHash32
  import XxAnswers32
  import XxSamples

  /** The parameters of a frame with nothing optional: linked blocks of up to 64 KB. */
  const PLAIN := Info(true, false, false, 4, 0, 0)

  /** Seven bytes are the shortest header. */
  lemma PlainHeader(xxh: seq<byte> -> nat, rest: seq<byte>)
    ensures ParseHeader([0x04, 0x22, 0x4D, 0x18, 0x40, 0x40, xxh([0x40, 0x40]) / 256 % 256] + rest, xxh)
         == Header(PLAIN, false, 7)
    ensures HeaderBytes(PLAIN, xxh) == [0x04, 0x22, 0x4D, 0x18, 0x40, 0x40, xxh([0x40, 0x40]) / 256 % 256]
  {
    var s := [0x04, 0x22, 0x4D, 0x18, 0x40, 0x40, xxh([0x40, 0x40]) / 256 % 256] + rest;
    assert s[4..6] == [0x40, 0x40] && LE32(s, 0) == MAGICNUMBER;
    assert Descriptor(PLAIN) == [0x40, 0x40];
  }

  /** Nineteen bytes are the longest: independent blocks of up to 4 MB, both checksums, a size and a
      dictionary. */
  lemma FullHeader(xxh: seq<byte> -> nat, d: seq<byte>, rest: seq<byte>)
    requires d == [0x7D, 0x70, 0x01, 0x02, 0x03, 0x04, 0x05, 0x06, 0x07, 0x08, 0x09, 0x0A, 0x0B, 0x0C]
    ensures ParseHeader([0x04, 0x22, 0x4D, 0x18] + d + [xxh(d) / 256 % 256] + rest, xxh)
         == Header(Info(false, true, true, 7, 0x0807060504030201, 0x0C0B0A09), true, 19)
  {
    var s := [0x04, 0x22, 0x4D, 0x18] + d + [xxh(d) / 256 % 256] + rest;
    assert s[4..18] == d && s[18] == xxh(d) / 256 % 256;
    assert LE32(s, 0) == MAGICNUMBER && s[4] == 0x7D && s[5] == 0x70;
    assert LE32(s, 6) == 0x04030201 && LE32(s, 10) == 0x08070605 && LE32(s, 14) == 0x0C0B0A09;
  }

  /** The bit of each flag: independent blocks, block checksums, a content checksum. */
  lemma FlagHeader(xxh: seq<byte> -> nat, i: nat, b: nat, c: nat, rest: seq<byte>)
    requires i < 2 && b < 2 && c < 2
    ensures var f := 0x40 + 0x20 * i + 0x10 * b + 0x04 * c;
            ParseHeader([0x04, 0x22, 0x4D, 0x18, f, 0x40, xxh([f, 0x40]) / 256 % 256] + rest, xxh)
            == Header(Info(i == 0, b == 1, c == 1, 4, 0, 0), false, 7)
  {
    var f := 0x40 + 0x20 * i + 0x10 * b + 0x04 * c;
    var s := [0x04, 0x22, 0x4D, 0x18, f, 0x40, xxh([f, 0x40]) / 256 % 256] + rest;
    assert s[4..6] == [f, 0x40] && LE32(s, 0) == MAGICNUMBER;
  }

  /** A header with a size and one with a dictionary. */
  lemma FieldHeaders(xxh: seq<byte> -> nat, d: seq<byte>, e: seq<byte>, rest: seq<byte>)
    requires d == [0x48, 0x40, 0x01, 0x02, 0x03, 0x04, 0x00, 0x00, 0x00, 0x00]
    requires e == [0x41, 0x40, 0x01, 0x02, 0x03, 0x04]
    ensures ParseHeader([0x04, 0x22, 0x4D, 0x18] + d + [xxh(d) / 256 % 256] + rest, xxh)
         == Header(PLAIN.(contentSize := 0x04030201), true, 15)
    ensures ParseHeader([0x04, 0x22, 0x4D, 0x18] + e + [xxh(e) / 256 % 256] + rest, xxh)
         == Header(PLAIN.(dictID := 0x04030201), false, 11)
  {
    var s := [0x04, 0x22, 0x4D, 0x18] + d + [xxh(d) / 256 % 256] + rest;
    assert s[4..14] == d && s[14] == xxh(d) / 256 % 256 && LE32(s, 0) == MAGICNUMBER && s[4] == 0x48 && s[5] == 0x40;
    assert LE32(s, 6) == 0x04030201 && LE32(s, 10) == 0;
    var t := [0x04, 0x22, 0x4D, 0x18] + e + [xxh(e) / 256 % 256] + rest;
    assert t[4..10] == e && t[10] == xxh(e) / 256 % 256 && LE32(t, 0) == MAGICNUMBER && t[4] == 0x41 && t[5] == 0x40;
    assert LE32(t, 6) == 0x04030201;
  }

  /** The four block sizes. */
  lemma SizedHeader(xxh: seq<byte> -> nat, id: nat, rest: seq<byte>)
    requires 4 <= id <= 7
    ensures var h := ParseHeader([0x04, 0x22, 0x4D, 0x18, 0x40, 0x10 * id, xxh([0x40, 0x10 * id]) / 256 % 256] + rest,
                                 xxh);
            h == Header(PLAIN.(blockSizeID := id), false, 7)
            && h.info.MaxBlockSize() == [65536, 262144, 1048576, 4194304][id - 4]
  {
    var s := [0x04, 0x22, 0x4D, 0x18, 0x40, 0x10 * id, xxh([0x40, 0x10 * id]) / 256 % 256] + rest;
    assert s[4..6] == [0x40, 0x10 * id] && LE32(s, 0) == MAGICNUMBER;
  }

  /** The sixteen kinds of skippable frames, with three bytes to skip. */
  lemma SkippableFrame(e: Env, rem: nat, kind: nat, a: byte, b: byte, c: byte, rest: seq<byte>)
    requires kind < 16
    ensures FrameFrom(e, rem, [0x50 + kind, 0x2A, 0x4D, 0x18, 0x03, 0x00, 0x00, 0x00, a, b, c] + rest)
         == Outcome([], Done(rest, rem))
  {
    hide Run;
    var s: seq<byte> := [0x50 + kind, 0x2A, 0x4D, 0x18, 0x03, 0x00, 0x00, 0x00, a, b, c] + rest;
    assert LE32(s, 0) == MAGIC_SKIPPABLE_START + kind;
    HeaderOutcome(e, Fresh(rem), s, s);
    var size: seq<byte>, skipped: seq<byte> := [0x03, 0x00, 0x00, 0x00], [a, b, c] + rest;
    assert s[4..] == size + skipped && LE32(size, 0) == 3;
    SkipSizeOutcome(e, Fresh(rem), size, skipped);
    SkipPart(e, Fresh(rem), 3, skipped, 3, e, Fresh(rem));
    assert skipped[3..] == rest;
  }

  /** After the shortest header. */
  lemma AfterPlain(e: Env, s: seq<byte>)
    ensures Frame(e, [0x04, 0x22, 0x4D, 0x18, 0x40, 0x40, e.xxh([0x40, 0x40]) / 256 % 256] + s)
         == Run(e, State(PLAIN, 0, []), AtBlock, s)
  {
    hide Run, ParseHeader, HeaderBytes;
    var h: seq<byte> := [0x04, 0x22, 0x4D, 0x18, 0x40, 0x40, e.xxh([0x40, 0x40]) / 256 % 256];
    PlainHeader(e.xxh, s);
    HeaderOutcome(e, Fresh(0), h + s, h + s);
    assert (h + s)[7..] == s;
  }

  /** Four zeros end a frame. */
  lemma EndMark(e: Env, st: State, rest: seq<byte>)
    requires st.rem == 0 && !st.info.contentChecksum
    ensures Run(e, st, AtBlock, [0x00, 0x00, 0x00, 0x00] + rest) == Outcome([], Done(rest, 0))
  {
    hide Run;
    var mark: seq<byte> := [0x00, 0x00, 0x00, 0x00];
    assert LE32(mark, 0) == 0;
    BlockOutcome(e, st, mark, rest);
    EndOutcome(e, st, rest);
  }

  /** One uncompressed block of three bytes: the high bit of its size is set. */
  lemma RawFrame(e: Env, a: byte, b: byte, c: byte, rest: seq<byte>)
    ensures Frame(e, [0x04, 0x22, 0x4D, 0x18, 0x40, 0x40, e.xxh([0x40, 0x40]) / 256 % 256]
                     + ([0x03, 0x00, 0x00, 0x80, a, b, c] + ([0x00, 0x00, 0x00, 0x00] + rest)))
         == Outcome([a, b, c], Done(rest, 0))
  {
    hide Run;
    var st, x: seq<byte>, end := State(PLAIN, 0, []), [a, b, c], [0x00, 0x00, 0x00, 0x00] + rest;
    AfterPlain(e, [0x03, 0x00, 0x00, 0x80, a, b, c] + end);
    var word: seq<byte> := [0x03, 0x00, 0x00, 0x80];
    assert LE32(word, 0) == 0x8000_0003;
    assert [0x03, 0x00, 0x00, 0x80, a, b, c] + end == word + (x + end);
    BlockOutcome(e, st, word, x + end);
    RawStep(e, st, 3, [], x + end, 3);
    assert (x + end)[..3] == x && (x + end)[3..] == end && [] + x == x;
    EndMark(e, Produce(st, x), rest);
  }

  /** One compressed block of three bytes: it is given to the block decoder with the dictionary and
      with room for a whole block. */
  lemma CompressedFrame(e: Env, a: byte, b: byte, c: byte, rest: seq<byte>)
    ensures Frame(e, [0x04, 0x22, 0x4D, 0x18, 0x40, 0x40, e.xxh([0x40, 0x40]) / 256 % 256]
                     + ([0x03, 0x00, 0x00, 0x00, a, b, c] + ([0x00, 0x00, 0x00, 0x00] + rest)))
         == match e.dec(e.dict, [a, b, c], 65536)
            case None => Outcome([], Refused(DecompressionFailed))
            case Some(x) => Outcome(x, Done(rest, 0))
  {
    hide Run;
    var st, x: seq<byte>, end := State(PLAIN, 0, []), [a, b, c], [0x00, 0x00, 0x00, 0x00] + rest;
    AfterPlain(e, [0x03, 0x00, 0x00, 0x00, a, b, c] + end);
    var word: seq<byte> := [0x03, 0x00, 0x00, 0x00];
    assert LE32(word, 0) == 3;
    assert [0x03, 0x00, 0x00, 0x00, a, b, c] + end == word + (x + end);
    BlockOutcome(e, st, word, x + end);
    CBlockOutcome(e, st, 3, x, end);
    assert x[..3] == x && e.dict + [] == e.dict;
    var d := e.dec(e.dict, x, 65536);
    if d.Some? {
      EndMark(e, Produce(st, d.value), rest);
      assert d.value + [] == d.value;
    }
  }

  // -------------------------------------------------- with the checksum itself

  function Checksum(s: seq<byte>): nat { XxHash32.Hash(s, 0) as nat }

  /** The empty frame. */
  lemma EmptyFrame(dec: (seq<byte>, seq<byte>, nat) -> Option<seq<byte>>)
    ensures Frame(Env(dec, Checksum, []), [0x04, 0x22, 0x4D, 0x18, 0x40, 0x40, 0xC0, 0x00, 0x00, 0x00, 0x00])
         == Outcome([], Done([], 0))
  {
    hide Run, Frame, XxHash32.Hash;
    var e := Env(dec, Checksum, []);
    XxAnswers32.PlainDescriptor([0x40, 0x40]);
    AfterPlain(e, [0x00, 0x00, 0x00, 0x00]);
    var h: seq<byte>, mark: seq<byte> := [0x04, 0x22, 0x4D, 0x18, 0x40, 0x40, 0xC0], [0x00, 0x00, 0x00, 0x00];
    assert mark + [] == mark;
    EndMark(e, State(PLAIN, 0, []), []);
    assert h + mark == [0x04, 0x22, 0x4D, 0x18, 0x40, 0x40, 0xC0, 0x00, 0x00, 0x00, 0x00];
  }

  /** Independent blocks and a content checksum. */
  lemma UsualHeader(rest: seq<byte>)
    ensures ParseHeader([0x04, 0x22, 0x4D, 0x18, 0x64, 0x40, 0xA7] + rest, Checksum)
         == Header(Info(false, false, true, 4, 0, 0), false, 7)
  {
    hide XxHash32.Hash;
    var s: seq<byte> := [0x04, 0x22, 0x4D, 0x18, 0x64, 0x40, 0xA7] + rest;
    XxAnswers32.UsualDescriptor(s[4..6]);
    assert LE32(s, 0) == MAGICNUMBER && s[4] == 0x64 && s[5] == 0x40 && s[6] == 0xA7;
  }

  /** "abc", not compressed, with its checksum. */
  lemma UsualFrame(dec: (seq<byte>, seq<byte>, nat) -> Option<seq<byte>>)
    ensures Frame(Env(dec, Checksum, []), [0x04, 0x22, 0x4D, 0x18, 0x64, 0x40, 0xA7]
                                          + [0x03, 0x00, 0x00, 0x80, 0x61, 0x62, 0x63]
                                          + [0x00, 0x00, 0x00, 0x00] + [0xFF, 0x53, 0xD1, 0x32])
         == Outcome([0x61, 0x62, 0x63], Done([], 0))
  {
    hide Frame, XxHash32.Hash;
    var h: seq<byte>, word: seq<byte>, x: seq<byte> :=
      [0x04, 0x22, 0x4D, 0x18, 0x64, 0x40, 0xA7], [0x03, 0x00, 0x00, 0x80], [0x61, 0x62, 0x63];
    var mark: seq<byte>, crc: seq<byte> := [0x00, 0x00, 0x00, 0x00], [0xFF, 0x53, 0xD1, 0x32];
    UsualGrouped(dec, h, word, x, mark, crc);
    assert h + (word + (x + (mark + crc))) == h + (word + x) + mark + crc;
    assert word + x == [0x03, 0x00, 0x00, 0x80, 0x61, 0x62, 0x63];
  }

  lemma UsualGrouped(dec: (seq<byte>, seq<byte>, nat) -> Option<seq<byte>>, h: seq<byte>, word: seq<byte>,
                     x: seq<byte>, mark: seq<byte>, crc: seq<byte>)
    requires h == [0x04, 0x22, 0x4D, 0x18, 0x64, 0x40, 0xA7] && word == [0x03, 0x00, 0x00, 0x80]
    requires x == [0x61, 0x62, 0x63] && mark == [0x00, 0x00, 0x00, 0x00] && crc == [0xFF, 0x53, 0xD1, 0x32]
    ensures Frame(Env(dec, Checksum, []), h + (word + (x + (mark + crc)))) == Outcome([0x61, 0x62, 0x63], Done([], 0))
  {
    hide Run, Frame, ParseHeader, XxHash32.Hash;
    var e, info := Env(dec, Checksum, []), Info(false, false, true, 4, 0, 0);
    var rest, st := mark + crc, State(info, 0, []);
    UsualHeader(word + (x + rest));
    UsualStart(e, info, h + (word + (x + rest)), word + (x + rest));
    assert LE32(word, 0) == 0x8000_0003;
    BlockOutcome(e, st, word, x + rest);
    RawStep(e, st, 3, [], x + rest, 3);
    assert (x + rest)[..3] == x && (x + rest)[3..] == rest && [] + x == x;
    UsualEnd(e, Produce(st, x), x, mark, crc);
  }

  lemma UsualEnd(e: Env, st: State, x: seq<byte>, mark: seq<byte>, crc: seq<byte>)
    requires e.xxh == Checksum && st == State(Info(false, false, true, 4, 0, 0), 0, x) && x == [0x61, 0x62, 0x63]
    requires mark == [0x00, 0x00, 0x00, 0x00] && crc == [0xFF, 0x53, 0xD1, 0x32]
    ensures Run(e, st, AtBlock, mark + crc) == Outcome([], Done([], 0))
  {
    hide Run, XxHash32.Hash;
    assert LE32(mark, 0) == 0 && LE32(crc, 0) == 0x32D1_53FF;
    BlockOutcome(e, st, mark, crc);
    XxAnswers32.Abc();
    assert x == XxSamples.ABC && crc + [] == crc;
    SuffixOutcome(e, st, crc, []);
  }

  lemma UsualStart(e: Env, info: Info, s: seq<byte>, rest: seq<byte>)
    requires |s| == 7 + |rest| && s[7..] == rest && ParseHeader(s, e.xxh) == Header(info, false, 7)
    ensures Frame(e, s) == Run(e, State(info, 0, []), AtBlock, rest)
  {
    hide Run, ParseHeader;
    HeaderOutcome(e, Fresh(0), s, s);
  }
}
