/** The decoder as written: nested scanning loops over one buffer that is compacted in place. */
module ChunkedDecoder {
  import opened Bytes
  import opened ChunkedSpec
  import ChunkedLanguage

  method MemMove(buf: array<byte>, dst: nat, src: nat, n: nat)
    requires dst <= src && src + n <= buf.Length
    modifies buf
    ensures forall i | dst <= i < dst + n :: buf[i] == old(buf[i - dst + src])
    ensures forall i | 0 <= i < dst || src + n <= i < buf.Length :: buf[i] == old(buf[i])
  {
    forall i | 0 <= i < n { buf[dst + i] := buf[src + i]; }
  }

  method CloseGap(buf: array<byte>, src: nat, dst: nat, bufsz: nat, ghost out: seq<byte>, ghost rest: seq<byte>)
    requires dst <= src <= bufsz <= buf.Length
    requires |out| == dst && forall i | 0 <= i < dst :: buf[i] == out[i]
    requires |rest| == bufsz - src && forall i | src <= i < bufsz :: buf[i] == rest[i - src]
    modifies buf
    ensures buf[..dst] == out && buf[dst..dst + |rest|] == rest
    ensures forall i | bufsz <= i < buf.Length :: buf[i] == old(buf[i])
  {
    if dst != src {
      MemMove(buf, dst, src, bufsz - src);
    }
  }

  /** How one `case` of the switch ends: keep going, leave with -2, leave with -1, body complete. */
  datatype Exit = Go | NeedMore | Fail | Done

  /** The value the call returns for an outcome. */
  function ReturnCode(o: Outcome): int {
    match o.verdict
    case Incomplete => -2
    case Error => -1
    case Complete => |o.rest|
  }

  class InPlaceDecoder {
    var bytesLeftInChunk: nat
    var consumeTrailer: bool
    var hexCount: nat
    var phase: Phase

    /** The struct "should be zero-filled before start"; the caller picks the trailer flag. */
    constructor (consumeTrailer: bool)
      ensures State() == Init(consumeTrailer)
    {
      bytesLeftInChunk, hexCount, phase := 0, 0, Size;
      this.consumeTrailer := consumeTrailer;
    }

    ghost function State(): Decoder
      reads this
    {
      Decoder(bytesLeftInChunk, consumeTrailer, hexCount, phase)
    }

    /** The part of the buffer not yet read still holds the caller's bytes. */
    ghost predicate Unread(buf: array<byte>, s: seq<byte>, src: nat)
      reads buf
    {
      src <= |s| <= buf.Length && forall i | src <= i < |s| :: buf[i] == s[i]
    }

    /** A scan of `s` from `src` to `src'` that emits nothing, taking state `d` to `d'`. */
    static ghost predicate Scanned(d: Decoder, d': Decoder, s: seq<byte>, src: nat, src': nat, exit: Exit) {
      && src <= src' <= |s| && Valid(d')
      && (if exit.Done? then Run(d, s[src..]) == Outcome(Complete, [], d', s[src'..])
          else Run(d, s[src..]) == Run(d', s[src'..]))
      && (exit.NeedMore? ==> src' == |s|)
      && (exit.Fail? ==> src' < |s| && StepByte(d', s[src']) == Reject)
    }

    static lemma StepOne(d: Decoder, s: seq<byte>, i: nat)
      requires i < |s|
      ensures Run(d, s[i..]) == AfterStep(StepByte(d, s[i]), d, s[i], s[i + 1..])
    {
      hide Run, StepByte;
      assert s[i..] == [s[i]] + s[i + 1..];
      RunOne(d, s[i], s[i + 1..]);
    }

    static lemma TakeDigit(d: Decoder, s: seq<byte>, i: nat, left: nat)
      requires i < |s| && Valid(d) && d.phase.Size? && d.hexCount < MAX_HEX && IsHex(s[i])
      requires left == PushDigit(d.left, HexDigit(s[i]))
      ensures var n := d.(left := left, hexCount := d.hexCount + 1);
              Valid(n) && Run(d, s[i..]) == Run(n, s[i + 1..])
    {
      SizeNeverWraps(d, s[i]);
      StepOne(d, s, i);
    }

    static lemma EndOfSize(d: Decoder, s: seq<byte>, i: nat)
      requires i < |s| && Valid(d) && d.phase.Size? && d.hexCount > 0 && NotHex(s[i])
      ensures var n := d.(hexCount := 0, phase := Ext);
              Valid(n) && Run(d, s[i..]) == Run(n, s[i..])
    {
      Pow16Bound(d.hexCount);
      hide Run, PushDigit;
      assert s[i..] == [s[i]] + s[i + 1..];
      ChunkedLanguage.LeaveSize(d.left, d.consumeTrailer, d.hexCount, s[i], s[i + 1..]);
    }

    method ReadSize(buf: array<byte>, src: nat, bufsz: nat, ghost s: seq<byte>) returns (src': nat, exit: Exit)
      requires |s| == bufsz && Unread(buf, s, src) && Valid(State()) && phase.Size?
      modifies this
      ensures Scanned(old(State()), State(), s, src, src', exit)
      ensures exit == Go ==> phase.Ext? && src' < bufsz
      ensures exit != Done
    {
      hide Run, PushDigit;
      src' := src;
      ghost var d := State();
      while src' < bufsz && IsHex(buf[src'])
        invariant src <= src' <= bufsz && State() == d
        invariant d.phase.Size? && Valid(d) && Run(old(State()), s[src..]) == Run(d, s[src'..])
      {
        if hexCount == MAX_HEX {
          return src', Fail;
        }
        var left := PushDigit(bytesLeftInChunk, HexDigit(buf[src']));
        TakeDigit(d, s, src', left);
        d := d.(left := left, hexCount := d.hexCount + 1);
        bytesLeftInChunk := left;
        hexCount := hexCount + 1;
        src' := src' + 1;
      }
      if src' == bufsz {
        return src', NeedMore;
      }
      if hexCount == 0 {
        return src', Fail;
      }
      EndOfSize(d, s, src');
      hexCount := 0;
      phase := Ext;
      return src', Go;
    }

    static lemma EndOfLine(d: Decoder, s: seq<byte>, i: nat)
      requires i < |s| && Valid(d) && d.phase.Ext? && s[i] == LF
      ensures Run(d, s[i..]) == ChunkedLanguage.AfterSizeLine(d.consumeTrailer, d.left, s[i + 1..])
    {
      hide Run;
      StepOne(d, s, i);
    }

    method ReadExt(buf: array<byte>, src: nat, bufsz: nat, ghost s: seq<byte>) returns (src': nat, exit: Exit)
      requires |s| == bufsz && Unread(buf, s, src) && Valid(State()) && phase.Ext?
      modifies this
      ensures Scanned(old(State()), State(), s, src, src', exit)
      ensures exit == Go ==> src < src' && (phase.Data? || phase.TrailerHead?)
    {
      hide Run, PushDigit;
      src' := src;
      while src' < bufsz && buf[src'] != LF
        invariant src <= src' <= bufsz
        invariant State() == old(State())
        invariant Run(State(), s[src..]) == Run(State(), s[src'..])
      {
        StepOne(State(), s, src');
        src' := src' + 1;
      }
      if src' == bufsz {
        return src', NeedMore;
      }
      EndOfLine(State(), s, src');
      src' := src' + 1;
      if bytesLeftInChunk == 0 {
        if consumeTrailer {
          phase := TrailerHead;
          return src', Go;
        }
        return src', Done;
      }
      phase := Data;
      return src', Go;
    }

    static lemma DataRun(d: Decoder, s: seq<byte>, i: nat, n: nat)
      requires i + n <= |s| && d.phase.Data? && n <= d.left && d.left > 0
      ensures Run(d, s[i..]) == Prepend(s[i..i + n], Run(if n < d.left then d.(left := d.left - n)
                                                         else d.(left := 0, phase := Crlf), s[i + n..]))
    {
      assert s[i..] == s[i..i + n] + s[i + n..];
      ChunkedLanguage.RunData(d, s[i..i + n], s[i + n..]);
    }

    /** Moves payload down to `dst`; bytes from `src'` on are left exactly as they were. */
    method CopyData(buf: array<byte>, src: nat, dst: nat, bufsz: nat, ghost s: seq<byte>)
      returns (src': nat, dst': nat, exit: Exit)
      requires dst <= src && |s| == bufsz && Unread(buf, s, src) && Valid(State()) && phase.Data?
      modifies this, buf
      ensures src <= src' && dst' - dst == src' - src && Valid(State()) && Unread(buf, s, src')
      ensures forall i | 0 <= i < dst || bufsz <= i < buf.Length :: buf[i] == old(buf[i])
      ensures forall i | dst <= i < dst' :: buf[i] == s[i - dst + src]
      ensures Run(old(State()), s[src..]) == Prepend(s[src..src'], Run(State(), s[src'..]))
      ensures exit == (if phase.Crlf? then Go else NeedMore) && (exit == NeedMore ==> src' == bufsz)
    {
      hide Run, PushDigit;
      var avail := bufsz - src;
      var n := if avail < bytesLeftInChunk then avail else bytesLeftInChunk;
      DataRun(State(), s, src, n);
      if dst != src {
        MemMove(buf, dst, src, n);
      }
      src', dst' := src + n, dst + n;
      if avail < bytesLeftInChunk {
        bytesLeftInChunk := bytesLeftInChunk - avail;
        return src', dst', NeedMore;
      }
      bytesLeftInChunk := 0;
      phase := Crlf;
      return src', dst', Go;
    }

    method SkipCrs(buf: array<byte>, src: nat, bufsz: nat, ghost s: seq<byte>) returns (src': nat)
      requires |s| == bufsz && Unread(buf, s, src) && (phase.Crlf? || phase.TrailerHead?)
      ensures src <= src' <= bufsz && (src' < bufsz ==> s[src'] != CR)
      ensures Run(State(), s[src..]) == Run(State(), s[src'..])
    {
      hide Run, PushDigit;
      src' := src;
      while src' < bufsz && buf[src'] == CR
        invariant src <= src' <= bufsz
        invariant Run(State(), s[src..]) == Run(State(), s[src'..])
      {
        StepOne(State(), s, src');
        src' := src' + 1;
      }
    }

    method ReadCrlf(buf: array<byte>, src: nat, bufsz: nat, ghost s: seq<byte>) returns (src': nat, exit: Exit)
      requires |s| == bufsz && Unread(buf, s, src) && Valid(State()) && phase.Crlf?
      modifies this
      ensures Scanned(old(State()), State(), s, src, src', exit)
      ensures exit == Go ==> src < src' && phase.Size?
      ensures exit != Done
    {
      hide Run, PushDigit;
      src' := SkipCrs(buf, src, bufsz, s);
      if src' == bufsz {
        return src', NeedMore;
      }
      if buf[src'] != LF {
        return src', Fail;
      }
      StepOne(State(), s, src');
      src' := src' + 1;
      phase := Size;
      return src', Go;
    }

    method ReadTrailerHead(buf: array<byte>, src: nat, bufsz: nat, ghost s: seq<byte>) returns (src': nat, exit: Exit)
      requires |s| == bufsz && Unread(buf, s, src) && Valid(State()) && phase.TrailerHead?
      modifies this
      ensures Scanned(old(State()), State(), s, src, src', exit)
      ensures exit == Go ==> src < src' && phase.TrailerMiddle?
      ensures exit != Fail
    {
      hide Run, PushDigit;
      src' := SkipCrs(buf, src, bufsz, s);
      if src' == bufsz {
        return src', NeedMore;
      }
      StepOne(State(), s, src');
      src' := src' + 1;
      if buf[src' - 1] == LF {
        return src', Done;
      }
      phase := TrailerMiddle;
      return src', Go;
    }

    method ReadTrailerMiddle(buf: array<byte>, src: nat, bufsz: nat, ghost s: seq<byte>) returns (src': nat, exit: Exit)
      requires |s| == bufsz && Unread(buf, s, src) && Valid(State()) && phase.TrailerMiddle?
      modifies this
      ensures Scanned(old(State()), State(), s, src, src', exit)
      ensures exit == Go ==> src < src' && phase.TrailerHead?
      ensures exit == Go || exit == NeedMore
    {
      hide Run, PushDigit;
      src' := src;
      while src' < bufsz && buf[src'] != LF
        invariant src <= src' <= bufsz
        invariant State() == old(State())
        invariant Run(State(), s[src..]) == Run(State(), s[src'..])
      {
        StepOne(State(), s, src');
        src' := src' + 1;
      }
      if src' == bufsz {
        return src', NeedMore;
      }
      StepOne(State(), s, src');
      src' := src' + 1;
      phase := TrailerHead;
      return src', Go;
    }

    static lemma ScanOn(d: Decoder, d': Decoder, d'': Decoder, s: seq<byte>, i: nat, j: nat, k: nat, exit: Exit)
      requires Scanned(d, d', s, i, j, Go) && Scanned(d', d'', s, j, k, exit)
      ensures Scanned(d, d'', s, i, k, exit)
    {
    }

    method ReadSizeLine(buf: array<byte>, src: nat, bufsz: nat, ghost s: seq<byte>) returns (src': nat, exit: Exit)
      requires |s| == bufsz && Unread(buf, s, src) && Valid(State()) && (phase.Size? || phase.Ext?)
      modifies this
      ensures Scanned(old(State()), State(), s, src, src', exit)
      ensures exit == Go ==> src < src' && (phase.Data? || phase.TrailerHead?)
    {
      src' := src;
      if phase.Size? {
        src', exit := ReadSize(buf, src, bufsz, s);
        if exit != Go { return; }
      }
      ghost var d, i := State(), src';
      src', exit := ReadExt(buf, src', bufsz, s);
      ScanOn(old(State()), d, State(), s, src, i, src', exit);
    }

    method ReadTrailerLine(buf: array<byte>, src: nat, bufsz: nat, ghost s: seq<byte>) returns (src': nat, exit: Exit)
      requires |s| == bufsz && Unread(buf, s, src) && Valid(State()) && (phase.TrailerHead? || phase.TrailerMiddle?)
      modifies this
      ensures Scanned(old(State()), State(), s, src, src', exit)
      ensures exit == Go ==> src < src'
    {
      src' := src;
      if phase.TrailerHead? {
        src', exit := ReadTrailerHead(buf, src, bufsz, s);
        if exit != Go { return; }
      }
      ghost var d, i := State(), src';
      src', exit := ReadTrailerMiddle(buf, src', bufsz, s);
      ScanOn(old(State()), d, State(), s, src, i, src', exit);
    }

    /** A turn that appended `out` to the payload while reading `s` from `src` to `src'`. */
    static ghost predicate Turned(d: Decoder, d': Decoder, s: seq<byte>, src: nat, src': nat, out: seq<byte>,
                                  exit: Exit) {
      && src <= src' <= |s| && Valid(d')
      && (if exit.Done? then Run(d, s[src..]) == Outcome(Complete, out, d', s[src'..])
          else Run(d, s[src..]) == Prepend(out, Run(d', s[src'..])))
      && (exit.Go? ==> src < src')
      && (exit.NeedMore? ==> src' == |s|)
      && (exit.Fail? ==> src' < |s| && StepByte(d', s[src']) == Reject)
    }

    /** One turn of the outer loop: the fall-through chain of cases from the current phase. */
    method Turn(buf: array<byte>, src: nat, dst: nat, bufsz: nat, ghost s: seq<byte>)
      returns (src': nat, dst': nat, exit: Exit, ghost out: seq<byte>)
      requires dst <= src && |s| == bufsz && Unread(buf, s, src) && Valid(State())
      modifies this, buf
      ensures dst <= dst' <= src' && Unread(buf, s, src')
      ensures forall i | 0 <= i < dst || bufsz <= i < buf.Length :: buf[i] == old(buf[i])
      ensures |out| == dst' - dst && forall i | dst <= i < dst' :: buf[i] == out[i - dst]
      ensures Turned(old(State()), State(), s, src, src', out, exit)
    {
      hide Run, StepByte, Valid;
      src', dst', exit, out := src, dst, Go, [];
      if phase.Size? || phase.Ext? {
        src', exit := ReadSizeLine(buf, src', bufsz, s);
        if exit != Go || phase.TrailerHead? { return; }
      }
      if phase.Data? {
        ghost var from := src';
        src', dst', exit := CopyData(buf, src', dst, bufsz, s);
        out := s[from..src'];
        if exit != Go { return; }
      }
      if phase.Crlf? {
        src', exit := ReadCrlf(buf, src', bufsz, s);
      } else {
        src', exit := ReadTrailerLine(buf, src', bufsz, s);
      }
    }

    /** The outer loop: turns until one of them leaves; `out` is the payload now in `buf[..dst]`. */
    method Loop(buf: array<byte>, bufsz: nat, ghost s: seq<byte>)
      returns (src: nat, dst: nat, exit: Exit, ghost out: seq<byte>)
      requires |s| == bufsz && Unread(buf, s, 0) && Valid(State())
      modifies this, buf
      ensures dst <= src && Unread(buf, s, src) && Valid(State()) && exit != Go
      ensures forall i | bufsz <= i < buf.Length :: buf[i] == old(buf[i])
      ensures |out| == dst && forall i | 0 <= i < dst :: buf[i] == out[i]
      ensures Ran(old(State()), State(), s, src, out, exit)
    {
      RunAll(State(), s);
      hide Run, StepByte;
      dst, src, exit, out := 0, 0, Go, [];
      while exit == Go
        invariant dst <= src && Unread(buf, s, src) && Valid(State())
        invariant forall i | bufsz <= i < buf.Length :: buf[i] == old(buf[i])
        invariant |out| == dst && forall i | 0 <= i < dst :: buf[i] == out[i]
        invariant Ran(old(State()), State(), s, src, out, exit)
        decreases exit == Go, bufsz - src
      {
        ghost var d, from, more := State(), src, [];
        src, dst, exit, more := Turn(buf, src, dst, bufsz, s);
        RanOn(old(State()), d, State(), s, from, src, out, more, exit);
        out := out + more;
      }
    }

    /** The whole call: same verdict, state, payload and tail as the byte-at-a-time machine. */
    method DecodeChunked(buf: array<byte>, bufsz: nat) returns (ret: int, newsz: nat)
      requires bufsz <= buf.Length && Valid(State())
      modifies this, buf
      ensures var o := Run(old(State()), old(buf[..bufsz]));
              && State() == o.dec && Valid(State())
              && ret == ReturnCode(o)
              && newsz == |o.payload| && newsz + |o.rest| <= bufsz
              && buf[..newsz] == o.payload
              && buf[newsz..newsz + |o.rest|] == o.rest
              && buf[bufsz..] == old(buf[bufsz..])
    {
      hide Run, StepByte;
      ghost var d0, s := State(), buf[..bufsz];
      var src, dst, exit, out := Loop(buf, bufsz, s);
      ret := if exit == Done then bufsz - src else if exit == Fail then -1 else -2;
      CloseGap(buf, src, dst, bufsz, out, s[src..]);
      assert buf[bufsz..] == old(buf[bufsz..]);
      RanToEnd(d0, State(), s, src, out, exit);
      newsz := dst;
    }

    /** What the loop has established after reading `s` up to `src` and writing `out`. */
    static ghost predicate Ran(d0: Decoder, d: Decoder, s: seq<byte>, src: nat, out: seq<byte>, exit: Exit) {
      && src <= |s|
      && (if exit.Done? then Run(d0, s) == Outcome(Complete, out, d, s[src..])
          else Run(d0, s) == Prepend(out, Run(d, s[src..])))
      && (exit.NeedMore? ==> src == |s|)
      && (exit.Fail? ==> src < |s| && StepByte(d, s[src]) == Reject)
    }

    static lemma RanOn(d0: Decoder, d: Decoder, d': Decoder, s: seq<byte>, src: nat, src': nat,
                       out: seq<byte>, more: seq<byte>, exit: Exit)
      requires Ran(d0, d, s, src, out, Go) && Turned(d, d', s, src, src', more, exit)
      ensures Ran(d0, d', s, src', out + more, exit)
    {
      var p := Run(d', s[src'..]).payload;
      assert out + (more + p) == (out + more) + p;
    }

    static lemma RunAll(d: Decoder, s: seq<byte>)
      ensures Ran(d, d, s, 0, [], Go)
    {
      hide Run, StepByte;
      assert s[0..] == s && [] + Run(d, s).payload == Run(d, s).payload;
    }

    static lemma RanToEnd(d0: Decoder, d: Decoder, s: seq<byte>, src: nat, out: seq<byte>, exit: Exit)
      requires Ran(d0, d, s, src, out, exit) && exit != Go
      ensures var o := Run(d0, s); o.payload == out && o.dec == d && o.rest == s[src..]
      ensures Run(d0, s).verdict == if exit.Done? then Complete else if exit.Fail? then Error else Incomplete
    {
      assert out + [] == out;
    }
  }

  /** One call on a fresh buffer holding `piece`. */
  method DecodePiece(decoder: InPlaceDecoder, piece: seq<byte>) returns (ret: int, out: seq<byte>, tail: seq<byte>)
    requires Valid(decoder.State())
    modifies decoder
    ensures var o := Run(old(decoder.State()), piece);
            && decoder.State() == o.dec && Valid(o.dec)
            && ret == ReturnCode(o) && out == o.payload && (ret >= 0 ==> tail == o.rest)
  {
    hide Run, StepByte;
    var buf := new byte[|piece|](i requires 0 <= i < |piece| => piece[i]);
    assert buf[..|piece|] == piece;
    var newsz;
    ret, newsz := decoder.DecodeChunked(buf, |piece|);
    out := buf[..newsz];
    tail := if ret >= 0 then buf[newsz..newsz + ret] else [];
  }

  /** The documented use: call again with newly arrived data while the result is -2. */
  method DecodePieces(pieces: seq<seq<byte>>, consumeTrailer: bool)
    returns (ret: int, payload: seq<byte>, tail: seq<byte>)
    ensures var o := Run(Init(consumeTrailer), Flatten(pieces));
            && payload == o.payload
            && ret == ReturnCode(o)
            && (o.verdict.Complete? ==> tail == o.rest)
  {
    RunNil(Init(consumeTrailer));
    hide Run, StepByte;
    var decoder := new InPlaceDecoder(consumeTrailer);
    ret, payload, tail := -2, [], [];
    ghost var d0, seen := decoder.State(), [];
    var k := 0;
    while k < |pieces| && ret == -2
      invariant 0 <= k <= |pieces| && fresh(decoder) && Valid(decoder.State())
      invariant Flatten(pieces) == seen + Flatten(pieces[k..])
      invariant var o := Run(d0, seen);
                o.payload == payload && o.dec == decoder.State() && ret == ReturnCode(o)
      invariant ret >= 0 ==> tail == Run(d0, seen).rest
    {
      assert pieces[k..][1..] == pieces[k + 1..];
      RunConcat(d0, seen, pieces[k]);
      seen := seen + pieces[k];
      var out;
      ret, out, tail := DecodePiece(decoder, pieces[k]);
      payload := payload + out;
      k := k + 1;
    }
    RunConcat(d0, seen, Flatten(pieces[k..]));
    if ret >= 0 {
      tail := tail + Flatten(pieces[k..]);
      ret := |tail|;
    } else if ret == -2 {
      assert seen + [] == seen;
    }
  }
}
