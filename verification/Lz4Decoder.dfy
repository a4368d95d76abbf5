/** LZ4_decompress_generic, full-block safe decoding into a buffer that may hold earlier
    output as a prefix.  Positions replace pointers: src is the compressed block, low is
    where the available history starts in buf, dst where this block's output starts. */
module Lz4Decoder {
  import opened Lz4Format
  import opened Lz4Copies

  datatype LengthError = Ok | LoopError | InitialError

  // -------------------------------------------------------------- arithmetic

  /** The 32-bit sum of at least one and fewer than 2^31 bytes of value 255 is not 0. */
  lemma SumOf255s(n: nat)
    requires 0 < n <= INT_MAX
    ensures 255 * n % U32 > 0
  {
  }

  lemma AddMod(a: nat, b: nat)
    ensures (a % U32 + b) % U32 == (a + b) % U32
  {
  }

  // ---------------------------------------------------------- reading lengths

  /** read_variable_length with the loop check on.  The sum is kept in 32 bits. */
  method ReadVariableLength(src: seq<byte>, ip0: nat, lencheck: int, initialCheck: bool)
    returns (length: nat, ip: nat, error: LengthError)
    requires |src| <= INT_MAX && lencheck <= |src|
    requires initialCheck || ip0 < |src|
    ensures error == InitialError <==> initialCheck && ip0 >= lencheck
    ensures error == InitialError ==> ip == ip0
    ensures error == Ok ==> ip < lencheck && ReadExt(src, ip0).Some?
                            && ReadExt(src, ip0).value.1 == ip
                            && length == ReadExt(src, ip0).value.0 % U32
    ensures error == LoopError ==> ip0 < ip <= |src| && lencheck <= ip
    ensures error == LoopError ==>
              || (ReadExt(src, ip0).Some? && ReadExt(src, ip0).value.1 == ip
                  && length == ReadExt(src, ip0).value.0 % U32)
              || (length > 0 && (ReadExt(src, ip0).Some? ==> ReadExt(src, ip0).value.1 > ip))
  {
    length, ip, error := 0, ip0, Ok;
    if initialCheck && ip >= lencheck {
      return 0, ip, InitialError;
    }
    ghost var n := 0;
    while true
      invariant ip == ip0 + n && ip < |src|
      invariant n > 0 ==> ip < lencheck
      invariant error == Ok
      invariant length == 255 * n % U32
      invariant ReadExt(src, ip0) ==
                match ReadExt(src, ip) case None => None case Some((v, j)) => Some((v + 255 * n, j))
      decreases |src| - ip
    {
      var s := src[ip];
      ip := ip + 1;
      length := (length + s) % U32;
      AddMod(255 * n, s);
      if ip >= lencheck {
        error := LoopError;
        if s == 255 { SumOf255s(n + 1); }
        return;
      }
      if s != 255 { return; }
      n := n + 1;
    }
  }

  // -------------------------------------------------------- what a step means

  /** A block whose remaining steps produce at least 5 bytes still has at least 6 bytes. */
  lemma {:induction false} RestrictedRoom(src: seq<byte>, i: nat, pos: nat, total: nat)
    requires Restricted(src, i, pos, total) && pos + LASTLITERALS <= total
    ensures i + 6 <= |src|
    decreases |src| - i
  {
    var it := ItemAt(src, i);
    if it.Match? {
      RestrictedRoom(src, it.next, pos + it.litLen + it.matchLen, total);
    }
  }

  // -------------------------------------------------------------------- steps

  datatype Status = Continue | End | Failed

  /** The decoder's own state between steps: out is what lies in buf[low..op]. */
  predicate Room(buf: array<byte>, low: nat, dst: nat, op: nat, oend: nat) {
    low <= dst <= op <= oend <= buf.Length && oend - dst <= INT_MAX
  }

  /** In the mode with a 64 KB prefix every 16-bit offset stays inside it. */
  predicate Prefix(low: nat, dst: nat, prefix64k: bool) {
    prefix64k ==> low + DISTANCE_MAX <= dst
  }

  /** A match length that ends too close to the end of the input, or of the output. */
  predicate TooLong(src: seq<byte>, token: byte, j: nat, pos: nat, room: nat)
    requires j <= |src|
  {
    match MatchLenAt(src, token, j)
    case None => true
    case Some((ml, next)) => (token % 16 == 15 && next + LASTLITERALS > |src|) || pos + ml + LASTLITERALS > room
  }

  /** From _copy_match on: the offset is tested, the match length read, the match copied.
      ip follows the offset, op the literals of the step at i. */
  method CopyMatchStep(src: seq<byte>, buf: array<byte>, low: nat, dst: nat, oend: nat, prefix64k: bool,
                       ip0: nat, op0: nat, token: byte, offset: nat)
    returns (ok: bool, ip: nat, op: nat)
    requires |src| <= INT_MAX && ip0 < |src|
    requires Room(buf, low, dst, op0, oend) && op0 + MFLIMIT <= oend
    requires Prefix(low, dst, prefix64k) && offset <= DISTANCE_MAX
    modifies buf
    ensures forall k :: 0 <= k < buf.Length && !(op0 <= k < oend) ==> buf[k] == old(buf[k])
    ensures ok ==> low + offset <= op0 && op0 < op <= oend && ip0 <= ip < |src|
                   && MatchLenAt(src, token, ip0) == Some((op - op0, ip))
                   && buf[low..op] == CopyMatch(old(buf[low..op0]), offset, op - op0)
    ensures !ok <==> low + offset > op0 || TooLong(src, token, ip0, op0, oend)
  {
    ip, op := ip0, op0;
    if !prefix64k && op < low + offset { return false, ip, op; }
    var length := token % 16;
    if length == 15 {
      var more, error;
      more, ip, error := ReadVariableLength(src, ip, |src| - LASTLITERALS + 1, false);
      if error != Ok { return false, ip, op; }
      length := length + more;
    }
    length := length + MINMATCH;
    ok := CopyMatchInto(buf, low, op, offset, length, oend);
    if ok { op := op + length; }
  }

  /** The second stage of the shortcut: 18 bytes copied for a short match that does not
      overlap its first 8 bytes. */
  method CopyMatch18(buf: array<byte>, low: nat, op: nat, offset: nat, length: nat)
    requires 8 <= offset && low + offset <= op && op + 18 <= buf.Length && length <= 18
    modifies buf
    ensures forall k :: 0 <= k < buf.Length && !(op <= k < op + 18) ==> buf[k] == old(buf[k])
    ensures buf[low..op + length] == CopyMatch(old(buf[low..op]), offset, length)
  {
    ghost var out := buf[low..op];
    var m := op - offset;
    MemCpy(buf, op, m, 8);
    MemCpy(buf, op + 8, m + 8, 8);
    MemCpy(buf, op + 16, m + 16, 2);
    ghost var r := buf[low..op + length];
    assert r[..|out|] == out;
    forall k | |out| <= k < |r| ensures r[k] == r[k - offset] {
      assert buf[low + k] == buf[low + k - offset];
    }
    CopyMatchUnique(out, offset, length, r);
  }

  /** Literals of the general path: returns Continue when a match follows them. */
  method CopyLiterals(src: seq<byte>, buf: array<byte>, oend: nat, ip0: nat, op0: nat, length: nat)
    returns (st: Status)
    requires ip0 <= |src| && op0 <= oend <= buf.Length
    modifies buf
    ensures forall k :: 0 <= k < buf.Length && !(op0 <= k < oend) ==> buf[k] == old(buf[k])
    ensures st == End <==> ip0 + length == |src| && op0 + length <= oend
    ensures st == Continue <==> ip0 + length + 8 <= |src| && op0 + length + MFLIMIT <= oend
    ensures st != Failed ==> op0 + length <= oend && ip0 + length <= |src|
                             && buf[op0..op0 + length] == src[ip0..ip0 + length]
  {
    var cpy := op0 + length;
    if cpy > oend - MFLIMIT || ip0 + length > |src| - (2 + 1 + LASTLITERALS) {
      if ip0 + length != |src| || cpy > oend { return Failed; }
      MemCpyFrom(buf, op0, src, ip0, length);
      return End;
    }
    WildCopy8From(buf, op0, src, ip0, cpy);
    return Continue;
  }

  /** The literal length at ip0, and where the literals start. */
  method ReadLitLength(src: seq<byte>, ip0: nat) returns (ok: bool, length: nat, ip: nat)
    requires |src| <= INT_MAX && ip0 < |src|
    ensures ok ==> ip0 < ip <= |src| && (ip + length <= |src| ==> LitsAt(src, ip0) == Some((ip, length)))
    ensures !ok || ip + length > |src| ==>
              LitsAt(src, ip0) == None || LitsAt(src, ip0).value.0 + LitsAt(src, ip0).value.1 > |src|
  {
    var token := src[ip0];
    ip, length := ip0 + 1, token / 16;
    if length == 15 {
      var more, error;
      more, ip, error := ReadVariableLength(src, ip, |src| - 15, true);
      if error == InitialError { return false, 0, ip; }
      length := length + more;
    }
    ok := true;
  }

  /** The two-stage shortcut for ll < 15 literals and matches away from both ends.  The
      literals are always copied and the offset read; done tells whether the match was
      copied too. */
  method Shortcut(src: seq<byte>, buf: array<byte>, low: nat, oend: nat, prefix64k: bool,
                  ip0: nat, op0: nat, ll: nat, mc: nat)
    returns (done: bool, ip: nat, op: nat, offset: nat)
    requires ip0 + 16 < |src| && ll < 15 && mc <= 15
    requires low <= op0 && op0 + 32 <= oend <= buf.Length && Prefix(low, op0, prefix64k)
    modifies buf
    ensures forall k :: 0 <= k < buf.Length && !(op0 <= k < oend) ==> buf[k] == old(buf[k])
    ensures ip == ip0 + ll + 2 && op0 + ll <= op <= oend
    ensures offset == LE16(src[ip - 2], src[ip - 1])
    ensures !done ==> op == op0 + ll && op + MFLIMIT <= oend
                      && buf[low..op] == old(buf[low..op0]) + src[ip0..ip0 + ll]
    ensures done <==> mc < 15 && offset >= 8 && low + offset <= op0 + ll
    ensures done ==> op == op0 + ll + (mc + MINMATCH) && low + offset <= op0 + ll
                     && buf[low..op] == CopyMatch(old(buf[low..op0]) + src[ip0..ip0 + ll], offset, mc + MINMATCH)
  {
    ghost var out := buf[low..op0];
    MemCpyFrom(buf, op0, src, ip0, 16);
    op, ip := op0 + ll, ip0 + ll;
    assert buf[low..op] == out + src[ip0..ip];
    offset := LE16(src[ip], src[ip + 1]);
    ip := ip + 2;
    if mc != 15 && offset >= 8 && (prefix64k || op - offset >= low) {
      CopyMatch18(buf, low, op, offset, mc + MINMATCH);
      op := op + (mc + MINMATCH);
      return true, ip, op, offset;
    }
    return false, ip, op, offset;
  }

  // --------------------------------------------------------------- whole step

  /** The step at i may take the shortcut: it is away from both ends. */
  predicate Short(src: seq<byte>, i: nat, pos: nat, room: nat)
    requires i < |src|
  {
    src[i] / 16 != 15 && i + 1 < |src| - 16 && pos + 32 <= room
  }

  /** The decoder refuses a step: it cannot be read, its offset reaches too far back, or it breaks a
      parsing restriction in an output area of room bytes.  The shortcut skips the checks of the
      literals, and those of a match that it copies itself. */
  predicate Refused(src: seq<byte>, i: nat, outLen: nat, pos: nat, room: nat)
    requires i < |src|
  {
    match ItemAt(src, i)
    case Bad => true
    case Last(_, ll) => pos + ll > room
    case Match(ls, ll, offset, ml, next) =>
      || offset > outLen + ll
      || if Short(src, i, pos, room) then
           (src[i] % 16 == 15 || offset < 8) && TooLong(src, src[i], ls + ll + 2, pos + ll, room)
         else
           || ls + ll + 8 > |src| || pos + ll + MFLIMIT > room
           || TooLong(src, src[i], ls + ll + 2, pos + ll, room)
  }

  /** What one turn of the main loop does with the step at i: out before it, out' after. */
  predicate Stepped(src: seq<byte>, i: nat, out: seq<byte>, pos: nat, room: nat,
                    st: Status, ip: nat, out': seq<byte>)
    requires i < |src|
  {
    var it := ItemAt(src, i);
    && (st == Failed <==> Refused(src, i, |out|, pos, room))
    && (st == End ==> it.Last? && out' == out + Lits(src, it))
    && (st == Continue ==> it.Match? && ip == it.next < |src|
                           && it.offset <= |out| + it.litLen && out' == Apply(src, it, out))
  }

  /** The item of a step with literals at ls and a match after them. */
  lemma ItemFromParts(src: seq<byte>, i: nat, ls: nat, ll: nat)
    requires LitsAt(src, i) == Some((ls, ll)) && ls + ll + 2 < |src|
    ensures var e := ls + ll;
            ItemAt(src, i) == match MatchLenAt(src, src[i], e + 2)
                              case None => Bad
                              case Some((ml, next)) => Match(ls, ll, LE16(src[e], src[e + 1]), ml, next)
  {
  }

  /** The match half of a step whose literals are out of the way. */
  method FinishStep(src: seq<byte>, buf: array<byte>, low: nat, dst: nat, oend: nat, prefix64k: bool,
                    i: nat, ls: nat, ll: nat, op0: nat, offset: nat, ghost out: seq<byte>)
    returns (st: Status, ip: nat, op: nat)
    requires |src| <= INT_MAX && LitsAt(src, i) == Some((ls, ll)) && ls + ll + 2 < |src|
    requires offset == LE16(src[ls + ll], src[ls + ll + 1])
    requires Room(buf, low, dst, op0, oend) && op0 + MFLIMIT <= oend && Prefix(low, dst, prefix64k)
    requires dst + ll <= op0 && buf[low..op0] == out + src[ls..ls + ll]
    requires if Short(src, i, op0 - ll - dst, oend - dst) then src[i] % 16 == 15 || offset < 8 || low + offset > op0
             else ls + ll + 8 <= |src|
    modifies buf
    ensures forall k :: 0 <= k < buf.Length && !(op0 <= k < oend) ==> buf[k] == old(buf[k])
    ensures Room(buf, low, dst, op, oend)
    ensures Stepped(src, i, out, op0 - ll - dst, oend - dst, st, ip, buf[low..op])
  {
    hide CopyMatch, ReadExt, LitsAt;
    ItemFromParts(src, i, ls, ll);
    assert |out| + ll == op0 - low;
    var ok;
    ok, ip, op := CopyMatchStep(src, buf, low, dst, oend, prefix64k, ls + ll + 2, op0, src[i], offset);
    st := if ok then Continue else Failed;
    if !ok { op := op0; }
  }

  /** A match that the shortcut copies is not refused. */
  lemma ShortAccepted(src: seq<byte>, i: nat, outLen: nat, pos: nat, room: nat)
    requires i < |src| && Short(src, i, pos, room) && src[i] % 16 < 15
    requires var it := ItemAt(src, i); it.Match? && 8 <= it.offset <= outLen + it.litLen
    ensures !Refused(src, i, outLen, pos, room)
  {
    hide ItemAt, TooLong;
  }

  lemma LiteralsEnd(src: seq<byte>, i: nat, ls: nat, ll: nat, outLen: nat, pos: nat, room: nat)
    requires i < |src| && LitsAt(src, i) == Some((ls, ll)) && ls + ll == |src| && pos + ll <= room
    ensures ItemAt(src, i) == Last(ls, ll) && !Refused(src, i, outLen, pos, room)
  {
  }

  /** Literals that the general path refuses. */
  lemma LiteralsRefused(src: seq<byte>, i: nat, outLen: nat, pos: nat, room: nat)
    requires i < |src| && !Short(src, i, pos, room)
    requires match LitsAt(src, i)
             case None => true
             case Some((ls, ll)) =>
               || ls + ll > |src|
               || (ls + ll == |src| && pos + ll > room)
               || (ls + ll != |src| && (ls + ll + 8 > |src| || pos + ll + MFLIMIT > room))
    ensures Refused(src, i, outLen, pos, room)
  {
  }

  /** The literals of a step on the general path, and the offset behind them. */
  method LiteralStep(src: seq<byte>, buf: array<byte>, low: nat, dst: nat, oend: nat, ip0: nat, op0: nat,
                     ghost out: seq<byte>)
    returns (st: Status, ls: nat, ll: nat, op: nat, offset: nat)
    requires |src| <= INT_MAX && ip0 < |src| && Room(buf, low, dst, op0, oend) && out == buf[low..op0]
    requires !Short(src, ip0, op0 - dst, oend - dst)
    modifies buf
    ensures forall k :: 0 <= k < buf.Length && !(op0 <= k < oend) ==> buf[k] == old(buf[k])
    ensures op0 <= op && Room(buf, low, dst, op, oend)
    ensures st == Failed ==> op == op0 && Refused(src, ip0, |out|, op0 - dst, oend - dst)
    ensures st != Failed ==>
              && LitsAt(src, ip0) == Some((ls, ll)) && op == op0 + ll && ls + ll <= |src|
              && buf[low..op] == out + src[ls..ls + ll]
    ensures st == End ==> ls + ll == |src|
    ensures st == Continue ==>
              ls + ll + 8 <= |src| && op + MFLIMIT <= oend && offset == LE16(src[ls + ll], src[ls + ll + 1])
  {
    hide ItemAt, CopyMatch, ReadExt, Refused, LitsAt;
    var ok;
    op, offset := op0, 0;
    ok, ll, ls := ReadLitLength(src, ip0);
    if !ok {
      LiteralsRefused(src, ip0, |out|, op0 - dst, oend - dst);
      return Failed, ls, ll, op, 0;
    }
    st := CopyLiterals(src, buf, oend, ls, op, ll);
    if st == Failed {
      LiteralsRefused(src, ip0, |out|, op0 - dst, oend - dst);
      return;
    }
    op := op + ll;
    assert buf[low..op] == out + src[ls..ls + ll];
    if st != End { offset := LE16(src[ls + ll], src[ls + ll + 1]); }
  }

  /** One turn of the main loop: the step at ip0, with output up to op0. */
  method DecodeStep(src: seq<byte>, buf: array<byte>, low: nat, dst: nat, oend: nat, prefix64k: bool,
                    ip0: nat, op0: nat)
    returns (st: Status, ip: nat, op: nat)
    requires |src| <= INT_MAX && ip0 < |src|
    requires Room(buf, low, dst, op0, oend) && Prefix(low, dst, prefix64k)
    modifies buf
    ensures forall k :: 0 <= k < buf.Length && !(op0 <= k < oend) ==> buf[k] == old(buf[k])
    ensures Room(buf, low, dst, op, oend)
    ensures Stepped(src, ip0, old(buf[low..op0]), op0 - dst, oend - dst, st, ip, buf[low..op])
  {
    hide ItemAt, CopyMatch, ReadExt, Refused;
    ghost var out := buf[low..op0];
    var token := src[ip0];
    var ls, ll, offset;
    if token / 16 != 15 && ip0 + 1 < |src| - 16 && op0 <= oend - 32 {
      var done;
      ls, ll := ip0 + 1, token / 16;
      done, ip, op, offset := Shortcut(src, buf, low, oend, prefix64k, ls, op0, ll, token % 16);
      if done {
        ItemFromParts(src, ip0, ls, ll);
        ShortAccepted(src, ip0, |out|, op0 - dst, oend - dst);
        return Continue, ip, op;
      }
    } else {
      st, ls, ll, op, offset := LiteralStep(src, buf, low, dst, oend, ip0, op0, out);
      if st == Failed { return Failed, ls, op; }
      if st == End {
        LiteralsEnd(src, ip0, ls, ll, |out|, op0 - dst, oend - dst);
        return End, ls + ll, op;
      }
    }
    st, ip, op := FinishStep(src, buf, low, dst, oend, prefix64k, ip0, ls, ll, op, offset, out);
  }

  // -------------------------------------------------------------- whole block

  /** What the decoder makes of a block, exactly: the steps from i on, replayed onto out, of which
      the last pos bytes are in an output area of room bytes.  It accepts more than the format. */
  function SafeDecode(src: seq<byte>, i: nat, out: seq<byte>, pos: nat, room: nat): (r: Option<seq<byte>>)
    decreases |src| - i
  {
    if i >= |src| || Refused(src, i, |out|, pos, room) then None
    else
      var it := ItemAt(src, i);
      if it.Last? then Some(out + Lits(src, it))
      else SafeDecode(src, it.next, Apply(src, it, out), pos + it.litLen + it.matchLen, room)
  }

  lemma SafeMatch(src: seq<byte>, i: nat, out: seq<byte>, pos: nat, room: nat, it: Item)
    requires it == ItemAt(src, i) && it.Match? && !Refused(src, i, |out|, pos, room)
    ensures it.offset <= |out| + it.litLen
    ensures SafeDecode(src, i, out, pos, room)
         == SafeDecode(src, it.next, Apply(src, it, out), pos + it.litLen + it.matchLen, room)
  {
    hide ReadExt, LitsAt, MatchLenAt, TooLong, CopyMatch, Apply;
  }

  lemma SafeStops(src: seq<byte>, i: nat, out: seq<byte>, pos: nat, room: nat, it: Item)
    requires it == ItemAt(src, i) && (i >= |src| || !it.Match? || Refused(src, i, |out|, pos, room))
    ensures it.Last? || i >= |src| || Refused(src, i, |out|, pos, room)
    ensures SafeDecode(src, i, out, pos, room)
         == if i >= |src| || Refused(src, i, |out|, pos, room) then None else Some(out + Lits(src, it))
  {
  }

  /** The length of the output matters to a step only as far as its offset goes. */
  lemma RefusedMore(src: seq<byte>, i: nat, outLen: nat, more: nat, pos: nat, room: nat)
    requires i < |src| && outLen >= DISTANCE_MAX
    ensures Refused(src, i, more + outLen, pos, room) <==> Refused(src, i, outLen, pos, room)
  {
    hide ReadExt, LitsAt, MatchLenAt, TooLong;
  }

  /** What it gives is what the reference decoder gives. */
  lemma {:induction false} SafeIsDecode(src: seq<byte>, i: nat, out: seq<byte>, pos: nat, room: nat)
    requires SafeDecode(src, i, out, pos, room).Some?
    ensures Decode(src, i, out) == SafeDecode(src, i, out, pos, room)
    decreases |src| - i
  {
    hide Refused, ItemAt, CopyMatch;
    var it := ItemAt(src, i);
    if !it.Match? {
      SafeStops(src, i, out, pos, room, it);
      DecodeLastItem(src, i, out, it);
    } else {
      SafeMatch(src, i, out, pos, room, it);
      DecodeMatch(src, i, out, it);
      SafeIsDecode(src, it.next, Apply(src, it, out), pos + it.litLen + it.matchLen, room);
    }
  }

  /** A refused step does not occur in a restricted block that fits and decodes. */
  lemma RefusedIsIllegal(src: seq<byte>, i: nat, out: seq<byte>, pos: nat, room: nat, total: nat)
    requires i < |src| && Refused(src, i, |out|, pos, room)
    requires Restricted(src, i, pos, total) && total <= room
    ensures Decode(src, i, out) == None
  {
    hide ItemAt, MatchLenAt;
    var it := ItemAt(src, i);
    if it.Match? {
      LengthOfMatch(src, i);
      RestrictedMatch(src, i, pos, total, it);
      RestrictedRoom(src, it.next, pos + it.litLen + it.matchLen, total);
    }
  }

  lemma LengthOfMatch(src: seq<byte>, i: nat)
    requires i < |src| && ItemAt(src, i).Match?
    ensures var it := ItemAt(src, i);
            MatchLenAt(src, src[i], it.litStart + it.litLen + 2) == Some((it.matchLen, it.next))
  {
  }

  lemma NotBeyond(src: seq<byte>, i: nat, out: seq<byte>)
    requires Decode(src, i, out).Some?
    ensures i < |src| && !ItemAt(src, i).Bad?
  {
  }

  /** It gives all the blocks that the format allows, if they fit. */
  lemma {:induction false} SafeIfRestricted(src: seq<byte>, i: nat, out: seq<byte>, pos: nat, room: nat, total: nat)
    requires Restricted(src, i, pos, total) && total <= room && Decode(src, i, out).Some?
    ensures SafeDecode(src, i, out, pos, room) == Decode(src, i, out)
    decreases |src| - i
  {
    hide Refused, ItemAt, CopyMatch, SafeDecode;
    var it := ItemAt(src, i);
    NotBeyond(src, i, out);
    if Refused(src, i, |out|, pos, room) {
      RefusedIsIllegal(src, i, out, pos, room, total);
    } else if it.Last? {
      SafeStops(src, i, out, pos, room, it);
      DecodeLastItem(src, i, out, it);
    } else {
      SafeMatch(src, i, out, pos, room, it);
      DecodeMatch(src, i, out, it);
      SafeIfRestricted(src, it.next, Apply(src, it, out), pos + it.litLen + it.matchLen, room, total);
    }
  }

  /** What a turn of the main loop means for the result. */
  lemma AfterStep(src: seq<byte>, i: nat, out: seq<byte>, pos: nat, room: nat,
                  st: Status, ip: nat, out': seq<byte>, pos': int)
    requires i < |src| && Stepped(src, i, out, pos, room, st, ip, out') && pos' == pos + |out'| - |out|
    ensures st == Continue ==>
              && i < ip < |src| && |out| < |out'|
              && SafeDecode(src, i, out, pos, room) == SafeDecode(src, ip, out', pos', room)
    ensures st == End ==> SafeDecode(src, i, out, pos, room) == Some(out')
    ensures st == Failed ==> SafeDecode(src, i, out, pos, room) == None
  {
    hide Refused, Apply;
  }

  /** The content the decoder gives for a block, with room for cap bytes: in no room at all, only
      the empty block whose one byte is 0. */
  function SafeContent(history: seq<byte>, src: seq<byte>, cap: nat): Option<seq<byte>> {
    if cap == 0 then if src == [0] then Some([]) else None
    else match SafeDecode(src, 0, history, 0, cap)
      case None => None
      case Some(r) => if |history| <= |r| then Some(r[|history|..]) else None
  }

  /** The block of nothing: one token without literals.  Its match bits mean nothing. */
  lemma EmptyBlock(src: seq<byte>, history: seq<byte>)
    ensures Encodes(src, history, []) <==> |src| == 1 && src[0] < 16
  {
    var it := ItemAt(src, 0);
    EncodesMeans(src, history, []);
    if it.Last? && it.litLen == 0 {
      assert history + Lits(src, it) == history;
    }
  }

  /** No input at all is not a block. */
  lemma NoBlock(history: seq<byte>, cap: nat)
    ensures cap > 0 ==> SafeContent(history, [], cap) == None
    ensures forall content :: !Encodes([], history, content)
  {
    assert ItemAt([], 0) == Bad;
  }

  /** LZ4_decompress_generic for full blocks: decodes src to buf[dst..dst+cap), matches
      reaching back to low.  Whatever src is, nothing outside the output area changes and
      a non-negative answer is the length of exactly what the reference decoder produces;
      and every block the format allows is decoded if its content fits.  What is refused and
      what is not is SafeContent.  Only with no output area at all is the empty block told
      apart by its one byte being 0. */
  method DecompressGeneric(src: seq<byte>, buf: array<byte>, low: nat, dst: nat, cap: nat, prefix64k: bool)
    returns (r: int)
    requires |src| <= INT_MAX && cap <= INT_MAX
    requires low <= dst && dst + cap <= buf.Length && Prefix(low, dst, prefix64k)
    modifies buf
    ensures forall k :: 0 <= k < buf.Length && !(dst <= k < dst + cap) ==> buf[k] == old(buf[k])
    ensures r <= cap
    ensures match SafeContent(old(buf[low..dst]), src, cap)
            case None => r < 0
            case Some(x) => r == |x| && buf[dst..dst + r] == x
    ensures r >= 0 ==> Decode(src, 0, old(buf[low..dst])) == Some(buf[low..dst + r])
    ensures forall content | Encodes(src, old(buf[low..dst]), content) && |content| <= cap && (cap > 0 || src == [0]) ::
              r == |content| && buf[dst..dst + r] == content
  {
    hide Restricted, Decode, SafeDecode, Encodes;
    ghost var history := buf[low..dst];
    if cap == 0 {
      EmptyBlock(src, history);
      EncodesMeans(src, history, []);
      assert history + [] == history;
      return if |src| == 1 && src[0] == 0 then 0 else -1;
    }
    if |src| == 0 {
      NoBlock(history, cap);
      return -1;
    }
    r := DecodeLoop(src, buf, low, dst, dst + cap, prefix64k);
    if r >= 0 {
      SafeIsDecode(src, 0, history, 0, cap);
      assert buf[low..dst + r][|history|..] == buf[dst..dst + r];
    }
    forall content | Encodes(src, history, content) && |content| <= cap
      ensures r == |content| && buf[dst..dst + r] == content
    {
      SafeContentOfFormat(src, history, content, cap);
    }
  }

  /** Every block the format allows is accepted, if its content fits. */
  lemma SafeContentOfFormat(src: seq<byte>, history: seq<byte>, content: seq<byte>, cap: nat)
    requires Encodes(src, history, content) && |content| <= cap && cap > 0
    ensures SafeContent(history, src, cap) == Some(content)
  {
    hide Decode, Restricted, SafeDecode;
    EncodesMeans(src, history, content);
    SafeIfRestricted(src, 0, history, 0, cap, |content|);
    assert (history + content)[|history|..] == content;
  }

  /** The main loop.  The answer of a failure says how far the input was read. */
  method DecodeLoop(src: seq<byte>, buf: array<byte>, low: nat, dst: nat, oend: nat, prefix64k: bool)
    returns (r: int)
    requires 0 < |src| <= INT_MAX && Room(buf, low, dst, dst, oend) && Prefix(low, dst, prefix64k)
    modifies buf
    ensures forall k :: 0 <= k < buf.Length && !(dst <= k < oend) ==> buf[k] == old(buf[k])
    ensures r <= oend - dst
    ensures SafeDecode(src, 0, old(buf[low..dst]), 0, oend - dst)
         == if r < 0 then None else Some(buf[low..dst + r])
  {
    hide SafeDecode, Stepped, ItemAt;
    ghost var history := buf[low..dst];
    var ip, op := 0, dst;
    while true
      invariant ip < |src| && Room(buf, low, dst, op, oend)
      invariant forall k :: 0 <= k < buf.Length && !(dst <= k < oend) ==> buf[k] == old(buf[k])
      invariant SafeDecode(src, 0, history, 0, oend - dst)
             == SafeDecode(src, ip, buf[low..op], op - dst, oend - dst)
      decreases |src| - ip
    {
      ghost var out, i, pos := buf[low..op], ip, op - dst;
      var st;
      st, ip, op := DecodeStep(src, buf, low, dst, oend, prefix64k, ip, op);
      AfterStep(src, i, out, pos, oend - dst, st, ip, buf[low..op], op - dst);
      if st == Failed { return -ip - 1; }
      if st == End { return op - dst; }
    }
  }
}
