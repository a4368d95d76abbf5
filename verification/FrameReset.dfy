/** What a context that was reset in mid-frame makes of the next frame.  Resetting keeps the size
    that the aborted frame still expected, and only a header that gives a size overwrites it: the
    frame after it keeps its meaning up to its end mark, and there it is refused. */
module FrameReset {
  import opened Lz4Format
  import opened FrameFormat

  /** What a caller sees of an outcome: not the size the context still expects. */
  function Seen(o: Outcome): Outcome {
    if o.end.Done? then Outcome(o.out, Done(o.end.rest, 0)) else o
  }

  /** Reading comes to the end mark of a frame. */
  predicate EndReached(e: Env, st: State, ph: Phase, s: seq<byte>)
    decreases |s|, Rank(ph)
  {
    match ph
    case AtHeader =>
      var h := ParseHeader(s, e.xxh);
      h.Header? && EndReached(e, StartOf(st, h.info, h.sized), AtBlock, s[h.size..])
    case AtBlock =>
      && |s| >= BH_SIZE
      && var word := LE32(s, 0);
         var size := word % BLOCKUNCOMPRESSED_FLAG;
         || size == 0
         || (size <= st.info.MaxBlockSize()
             && if word >= BLOCKUNCOMPRESSED_FLAG then EndReached(e, st, InRaw(size, []), s[4..])
                else EndReached(e, st, AtCBlock(size), s[4..]))
    case InRaw(left, acc) =>
      |s| >= left && EndReached(e, Produce(st, s[..left]), AfterRaw(st.info, Feed(st.info, acc, s[..left])), s[left..])
    case AtRawChecksum(acc) => |s| >= 4 && LE32(s, 0) == e.xxh(acc) && EndReached(e, st, AtBlock, s[4..])
    case AtCBlock(size) =>
      var full := size + st.info.CrcSize();
      && |s| >= full
      && (st.info.blockChecksum ==> LE32(s, size) == e.xxh(s[..size]))
      && var x := e.dec(History(e, st), s[..size], st.info.MaxBlockSize());
         x.Some? && EndReached(e, Produce(st, x.value), AtBlock, s[full..])
    case AtSuffix => true
    case AtSkipSize => false
    case InSkip(toSkip) => false
  }

  /** The end mark of a frame that does not give its size is reached. */
  predicate Ends(e: Env, s: seq<byte>) {
    EndReached(e, Fresh(0), AtHeader, s)
  }

  predicate Sized(e: Env, s: seq<byte>) {
    var h := ParseHeader(s, e.xxh);
    h.Header? && h.sized
  }

  /** The rest of a frame, for a context that still expects something and for one that does not:
      the same up to the end mark, and refused there. */
  lemma {:induction false} SameUpToEnd(e: Env, st: State, rem: nat, ph: Phase, s: seq<byte>)
    requires st.rem == 0 && st.info.contentSize == 0 && rem > 0
    requires !ph.AtHeader? && !ph.AtSkipSize? && !ph.InSkip?
    ensures var o, o' := Run(e, st, ph, s), Run(e, st.(rem := rem), ph, s);
            if EndReached(e, st, ph, s)
            then o' == Outcome(o.out, Refused(FrameSizeWrong)) && o.end != Refused(FrameSizeWrong)
            else o' == o && !o.end.Done?
    decreases |s|, Rank(ph)
  {
    match ph
    case AtBlock =>
      if |s| >= BH_SIZE {
        var word := LE32(s, 0);
        var size := word % BLOCKUNCOMPRESSED_FLAG;
        assert s == s[..4] + s[4..] && word == LE32(s[..4], 0);
        BlockOutcome(e, st, s[..4], s[4..]);
        BlockOutcome(e, st.(rem := rem), s[..4], s[4..]);
        if size == 0 {
          SameUpToEnd(e, st, rem, AtSuffix, s[4..]);
        } else if size <= st.info.MaxBlockSize() {
          SameUpToEnd(e, st, rem, if word >= BLOCKUNCOMPRESSED_FLAG then InRaw(size, []) else AtCBlock(size), s[4..]);
        }
      }
    case InRaw(left, acc) =>
      if |s| >= left {
        var x := s[..left];
        SameUpToEnd(e, Produce(st, x), rem, AfterRaw(st.info, Feed(st.info, acc, x)), s[left..]);
      }
    case AtRawChecksum(acc) => if |s| >= 4 { SameUpToEnd(e, st, rem, AtBlock, s[4..]); }
    case AtCBlock(size) =>
      var full := size + st.info.CrcSize();
      if |s| >= full {
        var x := e.dec(History(e, st), s[..size], st.info.MaxBlockSize());
        if x.Some? { SameUpToEnd(e, Produce(st, x.value), rem, AtBlock, s[full..]); }
      }
    case _ =>
  }

  /** A frame on a context that still expects rem bytes, in terms of the frame on a new one. */
  lemma FrameAfterReset(e: Env, rem: nat, s: seq<byte>)
    ensures var o := Frame(e, s);
            if rem > 0 && Ends(e, s) && !Sized(e, s)
            then FrameFrom(e, rem, s) == Outcome(o.out, Refused(FrameSizeWrong)) && o.end != Refused(FrameSizeWrong)
            else Seen(FrameFrom(e, rem, s)) == Seen(o)
  {
    hide Run;
    var h := ParseHeader(s, e.xxh);
    if h.Incomplete? {
      NoHeader(e, Fresh(0), s);
      NoHeader(e, Fresh(rem), s);
    } else {
      HeaderOutcome(e, Fresh(0), s, s);
      HeaderOutcome(e, Fresh(rem), s, s);
      if h.Skippable? {
        SkipKeeps(e, rem, s[4..]);
      } else if h.Header? && h.sized {
        assert StartOf(Fresh(rem), h.info, true) == StartOf(Fresh(0), h.info, true);
      } else if h.Header? && rem > 0 {
        SameUpToEnd(e, StartOf(Fresh(0), h.info, false), rem, AtBlock, s[h.size..]);
        assert StartOf(Fresh(rem), h.info, false) == StartOf(Fresh(0), h.info, false).(rem := rem);
      }
    }
  }

  lemma NoHeader(e: Env, st: State, s: seq<byte>)
    requires ParseHeader(s, e.xxh).Incomplete?
    ensures Run(e, st, AtHeader, s) == Outcome([], Short)
  {
  }

  lemma SkipKeeps(e: Env, rem: nat, s: seq<byte>)
    ensures Seen(Run(e, Fresh(rem), AtSkipSize, s)) == Seen(Run(e, Fresh(0), AtSkipSize, s))
  {
  }

  /** A context that was reset decodes an input as a new one does if, and only if, it expects
      nothing, or the frame gives its size, or its end mark is never reached. */
  lemma ResetIsHarmless(e: Env, rem: nat, s: seq<byte>)
    ensures Seen(FrameFrom(e, rem, s)) == Seen(Frame(e, s)) <==> rem == 0 || Sized(e, s) || !Ends(e, s)
  {
    FrameAfterReset(e, rem, s);
  }

  /** The shortest frame that does not give its size, behind any header that does not. */
  lemma EmptyFrameEnds(e: Env, b: seq<byte>)
    requires var h := ParseHeader(b, e.xxh); h.Header? && !h.sized && h.size == |b|
    ensures Ends(e, b + [0, 0, 0, 0]) && !Sized(e, b + [0, 0, 0, 0])
  {
    var s := b + [0, 0, 0, 0];
    HeaderMore(b, e.xxh, [0, 0, 0, 0]);
    assert s[|b|..] == [0, 0, 0, 0];
    var word: seq<byte> := [0, 0, 0, 0];
    assert LE32(word, 0) == 0;
  }

  /** Every input is decoded after a reset as on a new context if, and only if, nothing is expected. */
  lemma ResetIsAlwaysHarmless(e: Env, rem: nat)
    ensures (forall s :: Seen(FrameFrom(e, rem, s)) == Seen(Frame(e, s))) <==> rem == 0
  {
    var b := EmptyHeader(e.xxh);
    EmptyFrameEnds(e, b);
    ResetIsHarmless(e, rem, b + [0, 0, 0, 0]);
  }

  /** The seven bytes of a header that gives no size. */
  lemma EmptyHeader(xxh: seq<byte> -> nat) returns (b: seq<byte>)
    ensures ParseHeader(b, xxh) == Header(Info(true, false, false, 4, 0, 0), false, |b|)
  {
    b := [0x04, 0x22, 0x4D, 0x18, 0x40, 0x40, xxh([0x40, 0x40]) / 256 % 256];
    assert b[4..6] == [0x40, 0x40] && LE32(b, 0) == MAGICNUMBER;
  }

  /** Once a header b has been read, what follows is decoded as on a new context, whatever it is,
      if, and only if, nothing is expected or b is not a header without a size. */
  lemma ResetIsHarmlessFor(e: Env, rem: nat, b: seq<byte>)
    requires var h := ParseHeader(b, e.xxh); !h.Incomplete? && (h.Header? ==> h.size == |b|)
    ensures (forall rest :: Seen(FrameFrom(e, rem, b + rest)) == Seen(Frame(e, b + rest)))
       <==> rem == 0 || !ParseHeader(b, e.xxh).Header? || Sized(e, b)
  {
    hide FrameFrom, Frame, ParseHeader;
    var h := ParseHeader(b, e.xxh);
    forall rest: seq<byte> | rem == 0 || !h.Header? || h.sized
      ensures Seen(FrameFrom(e, rem, b + rest)) == Seen(Frame(e, b + rest))
    {
      HeaderMore(b, e.xxh, rest);
      ResetIsHarmless(e, rem, b + rest);
    }
    if h.Header? && !h.sized {
      HeaderMore(b, e.xxh, [0, 0, 0, 0]);
      EmptyFrameEnds(e, b);
      ResetIsHarmless(e, rem, b + [0, 0, 0, 0]);
    }
  }

  /** A frame that a new context completes, on one that still expects rem bytes. */
  lemma CompleteAfterReset(e: Env, rem: nat, s: seq<byte>)
    requires ParseHeader(s, e.xxh).Header? && Frame(e, s).end.Done?
    ensures Sized(e, s) ==> FrameFrom(e, rem, s) == Frame(e, s)
    ensures !Sized(e, s) && rem > 0 ==> FrameFrom(e, rem, s) == Outcome(Frame(e, s).out, Refused(FrameSizeWrong))
  {
    hide Run;
    var h := ParseHeader(s, e.xxh);
    HeaderOutcome(e, Fresh(0), s, s);
    HeaderOutcome(e, Fresh(rem), s, s);
    if h.sized {
      assert StartOf(Fresh(rem), h.info, true) == StartOf(Fresh(0), h.info, true);
    } else if rem > 0 {
      SameUpToEnd(e, StartOf(Fresh(0), h.info, false), rem, AtBlock, s[h.size..]);
      assert StartOf(Fresh(rem), h.info, false) == StartOf(Fresh(0), h.info, false).(rem := rem);
    }
  }
}
