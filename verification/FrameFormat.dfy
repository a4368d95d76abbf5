/** The LZ4 frame format: the one-shot meaning of a frame, as a function of all the bytes
    still to be read.  It knows nothing of buffers, calls or stages. */
module FrameFormat {
  import opened Lz4Format

  const KB128 := 0x2_0000
  const U64 := 0x1_0000_0000_0000_0000

  const MAGICNUMBER := 0x184D2204
  const MAGIC_SKIPPABLE_START := 0x184D2A50
  const BLOCKUNCOMPRESSED_FLAG := 0x8000_0000
  const MIN_FH_SIZE := 7
  const MAX_FH_SIZE := 19
  const BH_SIZE := 4
  const BF_SIZE := 4

  type pos = x: int | x > 0 witness 1

  datatype Error =
    | Generic
    | FrameTypeUnknown
    | ReservedFlagSet
    | HeaderVersionWrong
    | MaxBlockSizeInvalid
    | HeaderChecksumInvalid
    | BlockChecksumInvalid
    | DecompressionFailed
    | FrameSizeWrong
    | ContentChecksumInvalid
    | DstMaxSizeTooSmall

  /** The parameters a frame header carries; contentSize is 0 when it is not given. */
  datatype Info = Info(linked: bool, blockChecksum: bool, contentChecksum: bool,
                       blockSizeID: nat, contentSize: nat, dictID: nat)
  {
    predicate Valid() {
      4 <= blockSizeID <= 7 && contentSize < U64 && dictID < U32
    }

    function MaxBlockSize(): (r: nat)
      ensures 0x1_0000 <= r <= 0x40_0000
    {
      BlockSize(blockSizeID)
    }

    function CrcSize(): nat { if blockChecksum then BF_SIZE else 0 }
  }

  /** LZ4F_getBlockSize for an identifier in range. */
  function BlockSize(id: nat): (r: nat)
    ensures 0x1_0000 <= r <= 0x40_0000
  {
    if id <= 4 then 0x1_0000 else if id == 5 then 0x4_0000 else if id == 6 then 0x10_0000 else 0x40_0000
  }

  function LE32(s: seq<byte>, i: nat): (v: nat)
    requires i + 4 <= |s|
    ensures v < U32
  {
    s[i] as nat + 0x100 * s[i + 1] as nat + 0x1_0000 * s[i + 2] as nat + 0x100_0000 * s[i + 3] as nat
  }

  function LE64(s: seq<byte>, i: nat): (v: nat)
    requires i + 8 <= |s|
    ensures v < U64
  {
    LE32(s, i) + U32 * LE32(s, i + 4)
  }

  // ------------------------------------------------------------------- header

  /** A header is sized when it gives the size of the content, be it 0. */
  datatype HeaderResult =
    | Incomplete
    | Invalid(error: Error)
    | Skippable
    | Header(info: Info, sized: bool, size: nat)

  function FlgSize(flg: byte): nat {
    MIN_FH_SIZE + (if flg / 8 % 2 == 1 then 8 else 0) + (if flg % 2 == 1 then 4 else 0)
  }

  /** What the bytes of a frame header say; the checks come in the decoder's order. */
  function ParseHeader(s: seq<byte>, xxh: seq<byte> -> nat): (r: HeaderResult)
    ensures r.Header? ==> MIN_FH_SIZE <= r.size <= MAX_FH_SIZE && r.size <= |s| && r.info.Valid()
    ensures r.Header? && !r.sized ==> r.info.contentSize == 0
    ensures r.Skippable? ==> |s| >= MIN_FH_SIZE
  {
    if |s| < MIN_FH_SIZE then Incomplete
    else if LE32(s, 0) / 16 == MAGIC_SKIPPABLE_START / 16 then Skippable
    else if LE32(s, 0) != MAGICNUMBER then Invalid(FrameTypeUnknown)
    else
      var flg := s[4];
      if flg / 2 % 2 != 0 then Invalid(ReservedFlagSet)
      else if flg / 64 != 1 then Invalid(HeaderVersionWrong)
      else
        var size := FlgSize(flg);
        if |s| < size then Incomplete
        else
          var bd := s[5];
          if bd / 128 != 0 then Invalid(ReservedFlagSet)
          else if bd / 16 % 8 < 4 then Invalid(MaxBlockSizeInvalid)
          else if bd % 16 != 0 then Invalid(ReservedFlagSet)
          else if xxh(s[4..size - 1]) / 256 % 256 != s[size - 1] then Invalid(HeaderChecksumInvalid)
          else Header(Info(flg / 32 % 2 == 0, flg / 16 % 2 == 1, flg / 4 % 2 == 1, bd / 16 % 8,
                           if flg / 8 % 2 == 1 then LE64(s, 6) else 0,
                           if flg % 2 == 1 then LE32(s, size - 5) else 0), flg / 8 % 2 == 1, size)
  }

  // ------------------------------------------------------------------ meaning

  /** What a frame needs from outside: the block decoder (history, block, capacity), the
      32-bit checksum, and a predefined dictionary. */
  datatype Env = Env(dec: (seq<byte>, seq<byte>, nat) -> Option<seq<byte>>, xxh: seq<byte> -> nat,
                     dict: seq<byte>)

  /** The last 64 KB: all a block decoder can reach. */
  function Tail64(s: seq<byte>): (r: seq<byte>)
    ensures |r| <= KB64
  {
    if |s| <= KB64 then s else s[|s| - KB64..]
  }

  ghost predicate GoodEnv(e: Env) {
    && (forall h, b, cap :: e.dec(h, b, cap) == e.dec(Tail64(h), b, cap))
    && (forall h, b, cap :: e.dec(h, b, cap).Some? ==> |e.dec(h, b, cap).value| <= cap)
  }

  /** The running state of a frame: the content decoded so far and what the announced
      content size still expects, modulo 2^64. */
  datatype State = State(info: Info, rem: nat, content: seq<byte>)

  function Produce(st: State, x: seq<byte>): State {
    st.(content := st.content + x, rem := if st.info.contentSize != 0 then (st.rem - |x|) % U64 else st.rem)
  }

  /** Where in the frame the next unread byte is. */
  datatype Phase =
    | AtHeader
    | AtBlock
    | InRaw(left: pos, acc: seq<byte>)
    | AtRawChecksum(acc: seq<byte>)
    | AtCBlock(size: pos)
    | AtSuffix
    | AtSkipSize
    | InSkip(toSkip: nat)

  /** How reading a frame ends: complete, with the bytes left over and the size the context
      still expects; short of input; or refused. */
  datatype End = Done(rest: seq<byte>, left: nat) | Short | Refused(error: Error)

  datatype Outcome = Outcome(out: seq<byte>, end: End)

  function Prepend(x: seq<byte>, o: Outcome): Outcome {
    Outcome(x + o.out, o.end)
  }

  function History(e: Env, st: State): seq<byte> {
    if st.info.linked then e.dict + st.content else e.dict
  }

  /** What the block checksum has seen once x is copied. */
  function Feed(info: Info, acc: seq<byte>, x: seq<byte>): seq<byte> {
    if info.blockChecksum then acc + x else acc
  }

  function AfterRaw(info: Info, acc: seq<byte>): Phase {
    if info.blockChecksum then AtRawChecksum(acc) else AtBlock
  }

  function Rank(ph: Phase): nat {
    match ph
    case AtHeader => 3
    case AtBlock => 2
    case _ => 1
  }

  /** The content and the end of a frame, from phase ph and state st on, when s is all the
      input that is still to come. */
  function Run(e: Env, st: State, ph: Phase, s: seq<byte>): Outcome
    decreases |s|, Rank(ph)
  {
    match ph
    case AtHeader => RunHeader(e, st, s)
    case AtBlock => RunBlock(e, st, s)
    case InRaw(left, acc) =>
      if |s| < left then Outcome(s, Short)
      else
        var x := s[..left];
        Prepend(x, Run(e, Produce(st, x), AfterRaw(st.info, Feed(st.info, acc, x)), s[left..]))
    case AtRawChecksum(acc) =>
      if |s| < 4 then Outcome([], Short)
      else if LE32(s, 0) != e.xxh(acc) then Outcome([], Refused(BlockChecksumInvalid))
      else Run(e, st, AtBlock, s[4..])
    case AtCBlock(size) => RunCBlock(e, st, size, s)
    case AtSuffix =>
      if st.rem != 0 then Outcome([], Refused(FrameSizeWrong))
      else if !st.info.contentChecksum then Outcome([], Done(s, 0))
      else if |s| < 4 then Outcome([], Short)
      else if LE32(s, 0) != e.xxh(st.content) then Outcome([], Refused(ContentChecksumInvalid))
      else Outcome([], Done(s[4..], 0))
    case AtSkipSize =>
      if |s| < 4 then Outcome([], Short)
      else Run(e, st, InSkip(LE32(s, 0)), s[4..])
    case InSkip(toSkip) =>
      if |s| < toSkip then Outcome([], Short) else Outcome([], Done(s[toSkip..], st.rem))
  }

  function RunHeader(e: Env, st: State, s: seq<byte>): Outcome
    decreases |s|, 2
  {
    match ParseHeader(s, e.xxh)
    case Incomplete => Outcome([], Short)
    case Invalid(error) => Outcome([], Refused(error))
    case Skippable => Run(e, st, AtSkipSize, s[4..])
    case Header(info, sized, size) => Run(e, StartOf(st, info, sized), AtBlock, s[size..])
  }

  /** The state after a header: the expected size is only set when the header gives one. */
  function StartOf(st: State, info: Info, sized: bool): State {
    State(info, if sized then info.contentSize else st.rem, [])
  }

  function RunBlock(e: Env, st: State, s: seq<byte>): Outcome
    decreases |s|, 1
  {
    if |s| < BH_SIZE then Outcome([], Short)
    else
      var word := LE32(s, 0);
      var size := word % BLOCKUNCOMPRESSED_FLAG;
      if size == 0 then Run(e, st, AtSuffix, s[4..])
      else if size > st.info.MaxBlockSize() then Outcome([], Refused(MaxBlockSizeInvalid))
      else if word >= BLOCKUNCOMPRESSED_FLAG then Run(e, st, InRaw(size, []), s[4..])
      else Run(e, st, AtCBlock(size), s[4..])
  }

  function RunCBlock(e: Env, st: State, size: pos, s: seq<byte>): Outcome
    decreases |s|, 0
  {
    var full := size + st.info.CrcSize();
    if |s| < full then Outcome([], Short)
    else if st.info.blockChecksum && LE32(s, size) != e.xxh(s[..size]) then Outcome([], Refused(BlockChecksumInvalid))
    else match e.dec(History(e, st), s[..size], st.info.MaxBlockSize())
      case None => Outcome([], Refused(DecompressionFailed))
      case Some(x) => Prepend(x, Run(e, Produce(st, x), AtBlock, s[full..]))
  }

  /** The state in front of a frame, with what the context still expects from before. */
  function Fresh(rem: nat): State {
    State(Info(false, false, false, 4, 0, 0), rem, [])
  }

  /** One frame, from a context that still expects rem bytes of an earlier frame. */
  function FrameFrom(e: Env, rem: nat, s: seq<byte>): Outcome {
    Run(e, Fresh(rem), AtHeader, s)
  }

  /** One frame, from a context that has never been used or has completed its frames. */
  function Frame(e: Env, s: seq<byte>): Outcome {
    FrameFrom(e, 0, s)
  }

  // ---------------------------------------------------- facts about the meaning

  lemma PrependNothing(o: Outcome)
    ensures Prepend([], o) == o
  {
    assert [] + o.out == o.out;
  }

  lemma PrependTwice(x: seq<byte>, y: seq<byte>, o: Outcome)
    ensures Prepend(x, Prepend(y, o)) == Prepend(x + y, o)
  {
    assert x + (y + o.out) == (x + y) + o.out;
  }

  lemma ProduceTwice(st: State, x: seq<byte>, y: seq<byte>)
    ensures Produce(Produce(st, x), y) == Produce(st, x + y)
  {
    assert (st.content + x) + y == st.content + (x + y);
    SubMod(st.rem, |x|, |y|);
  }

  lemma SubMod(r: int, a: int, b: int)
    ensures ((r - a) % U64 - b) % U64 == (r - (a + b)) % U64
  {
    var q := (r - a) / U64;
    var m := (r - a) % U64;
    assert r - a == q * U64 + m;
    assert (m - b) % U64 == (m - b + q * U64) % U64 by { ModShift(m - b, q); }
  }

  lemma {:induction false} ModShift(x: int, q: int)
    ensures (x + q * U64) % U64 == x % U64
    decreases if q < 0 then -q else q
  {
    if q > 0 {
      ModShift(x, q - 1);
      assert (x + (q - 1) * U64 + U64) % U64 == (x + (q - 1) * U64) % U64;
    } else if q < 0 {
      ModShift(x, q + 1);
      assert (x + (q + 1) * U64 - U64) % U64 == (x + (q + 1) * U64) % U64;
    }
  }

  /** Copying any part of an uncompressed block leaves the copying of the rest. */
  lemma RawPart(e: Env, st: State, left: pos, acc: seq<byte>, s: seq<byte>, k: nat)
    requires 0 < k < left && k <= |s|
    ensures Run(e, st, InRaw(left, acc), s)
         == Prepend(s[..k], Run(e, Produce(st, s[..k]), InRaw(left - k, Feed(st.info, acc, s[..k])), s[k..]))
  {
    var x, s', st' := s[..k], s[k..], Produce(st, s[..k]);
    if |s| < left {
      assert s == x + s';
    } else {
      var y := s'[..left - k];
      assert x + y == s[..left] && s'[left - k..] == s[left..];
      ProduceTwice(st, x, y);
      assert Feed(st.info, Feed(st.info, acc, x), y) == Feed(st.info, acc, s[..left]) by {
        assert (acc + x) + y == acc + (x + y);
      }
      var o := Run(e, Produce(st, s[..left]), AfterRaw(st.info, Feed(st.info, acc, s[..left])), s[left..]);
      PrependTwice(x, y, o);
    }
  }

  lemma RawStep(e: Env, st: State, left: pos, acc: seq<byte>, s: seq<byte>, k: nat)
    requires k <= left && k <= |s| && st.rem < U64
    ensures Run(e, st, InRaw(left, acc), s)
         == Prepend(s[..k], Run(e, Produce(st, s[..k]),
                                if k == left then AfterRaw(st.info, Feed(st.info, acc, s[..k]))
                                else InRaw(left - k, Feed(st.info, acc, s[..k])), s[k..]))
  {
    if k == left {
    } else if k > 0 {
      RawPart(e, st, left, acc, s, k);
    } else {
      hide Run;
      ProduceNothing(st);
      assert s[..0] == [] && s[0..] == s && acc + [] == acc;
      PrependNothing(Run(e, st, InRaw(left, acc), s));
    }
  }

  lemma ProduceNothing(st: State)
    requires st.rem < U64
    ensures Produce(st, []) == st
  {
    assert st.content + [] == st.content;
  }

  /** A header that can be judged is judged the same when more bytes follow. */
  lemma HeaderMore(s: seq<byte>, xxh: seq<byte> -> nat, more: seq<byte>)
    requires !ParseHeader(s, xxh).Incomplete?
    ensures ParseHeader(s + more, xxh) == ParseHeader(s, xxh)
  {
    var t := s + more;
    assert LE32(t, 0) == LE32(s, 0);
    assert t[4] == s[4];
    var size := FlgSize(s[4]);
    if |s| >= size {
      assert t[5] == s[5] && t[size - 1] == s[size - 1];
      assert t[4..size - 1] == s[4..size - 1];
    }
  }

  lemma ShortHeader(s: seq<byte>, xxh: seq<byte> -> nat)
    requires |s| < MIN_FH_SIZE
    ensures ParseHeader(s, xxh).Incomplete?
  {
  }

  /** A header stays incomplete up to the size its first bytes tell, which are not those of
      a skippable frame. */
  lemma StillIncomplete(b: seq<byte>, s: seq<byte>, xxh: seq<byte> -> nat)
    requires MIN_FH_SIZE <= |b| && b <= s && ParseHeader(b, xxh).Incomplete?
    ensures LE32(s, 0) / 16 != MAGIC_SKIPPABLE_START / 16
    ensures |s| < FlgSize(b[4]) ==> ParseHeader(s, xxh).Incomplete?
  {
    assert LE32(s, 0) == LE32(b, 0) && s[4] == b[4];
  }

  /** The outcome of a frame only depends on the expected size left over from before. */
  lemma HeaderForgets(e: Env, st: State, st': State, s: seq<byte>)
    requires st.rem == st'.rem
    ensures Run(e, st, AtHeader, s) == Run(e, st', AtHeader, s)
  {
    if ParseHeader(s, e.xxh).Skippable? {
      assert Run(e, st, AtSkipSize, s[4..]) == Run(e, st', AtSkipSize, s[4..]);
    }
  }

  lemma TailOfTail(h: seq<byte>, x: seq<byte>, g: seq<byte>)
    requires Tail64(h) == Tail64(g)
    ensures Tail64(h + x) == Tail64(g + x)
  {
    assert Tail64(h + x) == Tail64(Tail64(h) + x);
    assert Tail64(g + x) == Tail64(Tail64(g) + x);
  }

  /** What the bytes b tell of a header settles the outcome, whatever follows them. */
  lemma HeaderOutcome(e: Env, st: State, b: seq<byte>, s: seq<byte>)
    requires b <= s && !ParseHeader(b, e.xxh).Incomplete?
    ensures var h := ParseHeader(b, e.xxh);
            && (h.Invalid? ==> Run(e, st, AtHeader, s) == Outcome([], Refused(h.error)))
            && (h.Skippable? ==> Run(e, st, AtHeader, s) == Run(e, st, AtSkipSize, s[4..]))
            && (h.Header? ==> h.size <= |s|
                              && Run(e, st, AtHeader, s) == Run(e, StartOf(st, h.info, h.sized), AtBlock, s[h.size..]))
  {
    HeaderMore(b, e.xxh, s[|b|..]);
    assert s == b + s[|b|..];
  }

  lemma SkipForgets(e: Env, st: State, e': Env, st': State, s: seq<byte>)
    requires st.rem == st'.rem
    ensures Run(e, st, AtSkipSize, s) == Run(e', st', AtSkipSize, s)
  {
  }

  /** The four bytes b of a block header settle what comes next. */
  lemma BlockOutcome(e: Env, st: State, b: seq<byte>, s: seq<byte>)
    requires |b| == BH_SIZE
    ensures var word := LE32(b, 0);
            var size := word % BLOCKUNCOMPRESSED_FLAG;
            Run(e, st, AtBlock, b + s) ==
            if size == 0 then Run(e, st, AtSuffix, s)
            else if size > st.info.MaxBlockSize() then Outcome([], Refused(MaxBlockSizeInvalid))
            else if word >= BLOCKUNCOMPRESSED_FLAG then Run(e, st, InRaw(size, []), s)
            else Run(e, st, AtCBlock(size), s)
  {
    assert LE32(b + s, 0) == LE32(b, 0);
    assert (b + s)[4..] == s;
  }

  /** The bytes b of a compressed block, with its checksum, settle what comes next. */
  lemma CBlockOutcome(e: Env, st: State, size: pos, b: seq<byte>, s: seq<byte>)
    requires |b| == size + st.info.CrcSize()
    ensures Run(e, st, AtCBlock(size), b + s) ==
            if st.info.blockChecksum && LE32(b, size) != e.xxh(b[..size])
            then Outcome([], Refused(BlockChecksumInvalid))
            else match e.dec(History(e, st), b[..size], st.info.MaxBlockSize())
                 case None => Outcome([], Refused(DecompressionFailed))
                 case Some(x) => Prepend(x, Run(e, Produce(st, x), AtBlock, s))
  {
    assert (b + s)[..size] == b[..size];
    assert st.info.blockChecksum ==> LE32(b + s, size) == LE32(b, size);
    assert (b + s)[|b|..] == s;
  }

  lemma RawChecksumOutcome(e: Env, st: State, acc: seq<byte>, b: seq<byte>, s: seq<byte>)
    requires |b| == 4
    ensures Run(e, st, AtRawChecksum(acc), b + s) ==
            if LE32(b, 0) != e.xxh(acc) then Outcome([], Refused(BlockChecksumInvalid))
            else Run(e, st, AtBlock, s)
  {
    assert LE32(b + s, 0) == LE32(b, 0);
    assert (b + s)[4..] == s;
  }

  /** What is settled at the end mark before any checksum is read. */
  lemma EndOutcome(e: Env, st: State, s: seq<byte>)
    ensures st.rem != 0 ==> Run(e, st, AtSuffix, s) == Outcome([], Refused(FrameSizeWrong))
    ensures st.rem == 0 && !st.info.contentChecksum ==> Run(e, st, AtSuffix, s) == Outcome([], Done(s, 0))
  {
  }

  lemma SuffixOutcome(e: Env, st: State, b: seq<byte>, s: seq<byte>)
    requires |b| == 4 && st.rem == 0 && st.info.contentChecksum
    ensures Run(e, st, AtSuffix, b + s) ==
            if LE32(b, 0) != e.xxh(st.content) then Outcome([], Refused(ContentChecksumInvalid))
            else Outcome([], Done(s, 0))
  {
    assert LE32(b + s, 0) == LE32(b, 0);
    assert (b + s)[4..] == s;
  }

  lemma SkipSizeOutcome(e: Env, st: State, b: seq<byte>, s: seq<byte>)
    requires |b| == 4
    ensures Run(e, st, AtSkipSize, b + s) == Run(e, st, InSkip(LE32(b, 0)), s)
  {
    assert LE32(b + s, 0) == LE32(b, 0);
    assert (b + s)[4..] == s;
  }

  lemma SkipSame(e: Env, st: State, left: nat, s: seq<byte>, e': Env, st': State)
    requires st.rem == st'.rem
    ensures Run(e, st, InSkip(left), s) == Run(e', st', InSkip(left), s)
  {
  }

  lemma SkipPart(e: Env, st: State, left: nat, s: seq<byte>, n: nat, e': Env, st': State)
    requires n <= left && n <= |s| && st.rem == st'.rem
    ensures Run(e, st, InSkip(left), s) == Run(e', st', InSkip(left - n), s[n..])
    ensures n == left ==> Run(e, st, InSkip(left), s) == Outcome([], Done(s[n..], st.rem))
  {
    if left <= |s| { assert s[n..][left - n..] == s[left..]; }
  }
}
