/** The language the chunked decoder accepts: section 4.1 of RFC 7230 with the decoder's leniency. */
module ChunkedLanguage {
  import opened Bytes
  import opened ChunkedSpec

  /** One chunk as sent: any spelling of its size, an extension, the data, stray CRs before LF. */
  datatype Chunk = Chunk(digits: seq<byte>, ext: seq<byte>, data: seq<byte>, crs: nat)

  datatype TrailerLine = TrailerLine(crs: nat, first: byte, middle: seq<byte>)

  datatype Body = Body(chunks: seq<Chunk>, lastDigits: seq<byte>, lastExt: seq<byte>,
                       trailer: seq<TrailerLine>, endCrs: nat)

  // Well-formed bodies and their text ---------------------------------------

  predicate DigitsOk(digits: seq<byte>) {
    1 <= |digits| <= MAX_HEX && Every(IsHex, digits)
  }

  predicate SizeOk(digits: seq<byte>, value: nat) {
    DigitsOk(digits) && HexValue(digits) == value
  }

  predicate ExtOk(ext: seq<byte>) {
    Never(IsLf, ext) && (ext != [] ==> NotHex(ext[0]))
  }

  predicate ChunkOk(c: Chunk) {
    SizeOk(c.digits, |c.data|) && ExtOk(c.ext) && c.data != []
  }

  predicate LineOk(l: TrailerLine) {
    l.first != CR && l.first != LF && Never(IsLf, l.middle)
  }

  predicate BodyOk(b: Body) {
    && (forall i | 0 <= i < |b.chunks| :: ChunkOk(b.chunks[i]))
    && SizeOk(b.lastDigits, 0) && ExtOk(b.lastExt)
    && (forall i | 0 <= i < |b.trailer| :: LineOk(b.trailer[i]))
  }

  function SizeLine(digits: seq<byte>, ext: seq<byte>): seq<byte> {
    digits + ext + [LF]
  }

  function ChunkText(c: Chunk): seq<byte> {
    SizeLine(c.digits, c.ext) + c.data + Repeat(CR, c.crs) + [LF]
  }

  function LineText(l: TrailerLine): seq<byte> {
    Repeat(CR, l.crs) + [l.first] + l.middle + [LF]
  }

  function TrailerText(ls: seq<TrailerLine>, endCrs: nat): seq<byte> {
    if ls == [] then Repeat(CR, endCrs) + [LF] else LineText(ls[0]) + TrailerText(ls[1..], endCrs)
  }

  function BodyText(b: Body, consumeTrailer: bool): seq<byte>
    decreases |b.chunks|
  {
    if b.chunks == [] then
      SizeLine(b.lastDigits, b.lastExt) + if consumeTrailer then TrailerText(b.trailer, b.endCrs) else []
    else
      ChunkText(b.chunks[0]) + BodyText(b.(chunks := b.chunks[1..]), consumeTrailer)
  }

  function Payload(b: Body): seq<byte>
    decreases |b.chunks|
  {
    if b.chunks == [] then [] else b.chunks[0].data + Payload(b.(chunks := b.chunks[1..]))
  }

  // What the machine does on each piece of text ------------------------------

  lemma {:induction false} RunSkip(d: Decoder, x: seq<byte>, t: seq<byte>)
    requires forall i | 0 <= i < |x| :: StepByte(d, x[i]) == Take(d, [])
    ensures Run(d, x + t) == Run(d, t)
    decreases |x|
  {
    if x == [] {
      assert x + t == t;
    } else {
      hide Run, StepByte;
      assert x + t == [x[0]] + (x[1..] + t);
      RunOne(d, x[0], x[1..] + t);
      RunSkip(d, x[1..], t);
    }
  }

  lemma SkipCut(d: Decoder, s: seq<byte>, i: nat, k: nat)
    requires i <= k <= |s| && forall j | i <= j < k :: StepByte(d, s[j]) == Take(d, [])
    ensures Run(d, s[i..]) == Run(d, s[k..])
  {
    hide Run, StepByte;
    assert s[i..] == s[i..k] + s[k..];
    RunSkip(d, s[i..k], s[k..]);
  }

  lemma RunDigit(d: Decoder, b: byte, t: seq<byte>)
    requires d.phase.Size? && d.left < Pow16(d.hexCount) && d.hexCount < MAX_HEX && IsHex(b)
    ensures d.left * 16 + HexDigit(b) < Pow16(d.hexCount + 1)
    ensures Run(d, [b] + t) == Run(d.(left := d.left * 16 + HexDigit(b), hexCount := d.hexCount + 1), t)
  {
    hide Run;
    Pow16Bound(d.hexCount);
    SizeNeverWraps(d, b);
    RunOne(d, b, t);
  }

  lemma NoDigits()
    ensures HexValue([]) == 0 && Pow16(0) == 1
  {
  }

  lemma {:induction false} RunDigits(tr: bool, ds: seq<byte>, t: seq<byte>)
    requires |ds| <= MAX_HEX && Every(IsHex, ds)
    ensures HexValue(ds) < Pow16(|ds|)
    ensures Run(Init(tr), ds + t) == Run(Decoder(HexValue(ds), tr, |ds|, Size), t)
    decreases |ds|
  {
    hide Run, StepByte, HexValue, Pow16, HexDigit;
    if ds == [] {
      assert ds + t == t;
      NoDigits();
    } else {
      var n := |ds| - 1;
      var es, b := ds[..n], ds[n];
      assert ds == es + [b];
      assert es + ([b] + t) == ds + t;
      HexValueSnoc(es, b);
      RunDigits(tr, es, [b] + t);
      RunDigit(Decoder(HexValue(es), tr, n, Size), b, t);
    }
  }

  lemma {:induction false} RunData(d: Decoder, x: seq<byte>, t: seq<byte>)
    requires d.phase.Data? && |x| <= d.left && d.left > 0
    ensures Run(d, x + t) == Prepend(x, Run(if |x| < d.left then d.(left := d.left - |x|)
                                            else d.(left := 0, phase := Crlf), t))
    decreases |x|
  {
    hide Run;
    if x == [] {
      assert x + t == t;
    } else {
      assert x + t == [x[0]] + (x[1..] + t);
      RunOne(d, x[0], x[1..] + t);
      if d.left > 1 {
        RunData(d.(left := d.left - 1), x[1..], t);
        var o := Run(if |x| < d.left then d.(left := d.left - |x|) else d.(left := 0, phase := Crlf), t);
        assert [x[0]] + (x[1..] + o.payload) == x + o.payload;
      } else {
        assert x == [x[0]] && x[1..] + t == t;
      }
    }
  }

  /** Where the machine is after the line feed that ends a size line of value `v`. */
  function AfterSizeLine(tr: bool, v: nat, t: seq<byte>): Outcome {
    if v != 0 then Run(Decoder(v, tr, 0, Data), t)
    else if tr then Run(Decoder(0, tr, 0, TrailerHead), t)
    else Outcome(Complete, [], Decoder(0, tr, 0, Ext), t)
  }

  /** The first byte after the digits moves the machine into the extension. */
  lemma LeaveSize(v: nat, tr: bool, n: nat, b: byte, t: seq<byte>)
    requires n > 0 && NotHex(b)
    ensures Run(Decoder(v, tr, n, Size), [b] + t) == Run(Decoder(v, tr, 0, Ext), [b] + t)
  {
    hide Run, PushDigit;
    RunOne(Decoder(v, tr, n, Size), b, t);
    RunOne(Decoder(v, tr, 0, Ext), b, t);
  }

  lemma RunToExt(tr: bool, digits: seq<byte>, ext: seq<byte>, t: seq<byte>)
    requires DigitsOk(digits) && ExtOk(ext)
    requires ext == [] ==> t != [] && t[0] == LF
    ensures Run(Init(tr), digits + ext + t) == Run(Decoder(HexValue(digits), tr, 0, Ext), t)
  {
    hide Run, HexValue, PushDigit;
    var v := HexValue(digits);
    var u := ext + t;
    assert u == [u[0]] + u[1..] && digits + u == digits + ext + t;
    RunDigits(tr, digits, u);
    LeaveSize(v, tr, |digits|, u[0], u[1..]);
    RunSkip(Decoder(v, tr, 0, Ext), ext, t);
  }

  lemma RunSizeLine(tr: bool, digits: seq<byte>, ext: seq<byte>, t: seq<byte>)
    requires DigitsOk(digits) && ExtOk(ext)
    ensures Run(Init(tr), SizeLine(digits, ext) + t) == AfterSizeLine(tr, HexValue(digits), t)
  {
    hide Run, HexValue;
    assert SizeLine(digits, ext) + t == digits + ext + ([LF] + t);
    RunToExt(tr, digits, ext, [LF] + t);
    RunOne(Decoder(HexValue(digits), tr, 0, Ext), LF, t);
  }

  lemma RunCrsLf(d: Decoder, n: nat, t: seq<byte>)
    requires d.phase.Crlf? || d.phase.TrailerHead?
    ensures Run(d, Repeat(CR, n) + [LF] + t) ==
            if d.phase.Crlf? then Run(d.(phase := Size), t) else Outcome(Complete, [], d, t)
  {
    hide Run;
    assert Repeat(CR, n) + [LF] + t == Repeat(CR, n) + ([LF] + t);
    RunSkip(d, Repeat(CR, n), [LF] + t);
    RunOne(d, LF, t);
  }

  lemma RunChunk(tr: bool, c: Chunk, t: seq<byte>)
    requires ChunkOk(c)
    ensures Run(Init(tr), ChunkText(c) + t) == Prepend(c.data, Run(Init(tr), t))
  {
    hide Run, HexValue;
    var tail := Repeat(CR, c.crs) + [LF] + t;
    assert ChunkText(c) + t == SizeLine(c.digits, c.ext) + (c.data + tail);
    RunSizeLine(tr, c.digits, c.ext, c.data + tail);
    RunData(Decoder(|c.data|, tr, 0, Data), c.data, tail);
    RunCrsLf(Decoder(0, tr, 0, Crlf), c.crs, t);
  }

  lemma RunTrailerLine(l: TrailerLine, t: seq<byte>)
    requires LineOk(l)
    ensures var d := Decoder(0, true, 0, TrailerHead); Run(d, LineText(l) + t) == Run(d, t)
  {
    var d := Decoder(0, true, 0, TrailerHead);
    hide Run;
    var tail := [LF] + t;
    assert LineText(l) + t == Repeat(CR, l.crs) + ([l.first] + (l.middle + tail));
    RunSkip(d, Repeat(CR, l.crs), [l.first] + (l.middle + tail));
    RunOne(d, l.first, l.middle + tail);
    RunSkip(d.(phase := TrailerMiddle), l.middle, tail);
    RunOne(d.(phase := TrailerMiddle), LF, t);
  }

  lemma {:induction false} RunTrailer(ls: seq<TrailerLine>, endCrs: nat, t: seq<byte>)
    requires forall i | 0 <= i < |ls| :: LineOk(ls[i])
    ensures var d := Decoder(0, true, 0, TrailerHead);
            Run(d, TrailerText(ls, endCrs) + t) == Outcome(Complete, [], d, t)
    decreases |ls|
  {
    hide Run, StepByte;
    if ls == [] {
      RunCrsLf(Decoder(0, true, 0, TrailerHead), endCrs, t);
    } else {
      var tail := TrailerText(ls[1..], endCrs) + t;
      assert TrailerText(ls, endCrs) + t == LineText(ls[0]) + tail;
      RunTrailerLine(ls[0], tail);
      RunTrailer(ls[1..], endCrs, t);
    }
  }

  /** The state in which a zero-filled decoder stops when it has seen the end of the body. */
  function Stopped(consumeTrailer: bool): Decoder {
    Decoder(0, consumeTrailer, 0, if consumeTrailer then TrailerHead else Ext)
  }

  /** Decoding undoes encoding, and leaves exactly the bytes that follow the body. */
  lemma {:induction false} RoundTrip(b: Body, consumeTrailer: bool, suffix: seq<byte>)
    requires BodyOk(b)
    ensures Run(Init(consumeTrailer), BodyText(b, consumeTrailer) + suffix) ==
            Outcome(Complete, Payload(b), Stopped(consumeTrailer), suffix)
    decreases |b.chunks|
  {
    hide Run, StepByte, HexValue;
    var tr := consumeTrailer;
    if b.chunks == [] {
      var tail := (if tr then TrailerText(b.trailer, b.endCrs) else []) + suffix;
      RunSizeLine(tr, b.lastDigits, b.lastExt, tail);
      assert BodyText(b, tr) + suffix == SizeLine(b.lastDigits, b.lastExt) + tail;
      if tr { RunTrailer(b.trailer, b.endCrs, suffix); } else { assert tail == suffix; }
    } else {
      var b' := b.(chunks := b.chunks[1..]);
      RunChunk(tr, b.chunks[0], BodyText(b', tr) + suffix);
      assert BodyText(b, tr) + suffix == ChunkText(b.chunks[0]) + (BodyText(b', tr) + suffix);
      RoundTrip(b', tr, suffix);
    }
  }

  // Everything the machine accepts is such a text -----------------------------

  lemma DigitsCut(tr: bool, s: seq<byte>, n: nat)
    requires n <= |s| && n <= MAX_HEX && Every(IsHex, s[..n])
    ensures Run(Init(tr), s) == Run(Decoder(HexValue(s[..n]), tr, n, Size), s[n..])
  {
    hide Run, StepByte, HexValue;
    assert s[..n] + s[n..] == s;
    RunDigits(tr, s[..n], s[n..]);
  }

  lemma SizeDigits(tr: bool, s: seq<byte>) returns (k: nat)
    requires Run(Init(tr), s).verdict.Complete?
    ensures k < |s| && DigitsOk(s[..k]) && NotHex(s[k])
  {
    hide HexValue, Run;
    k := First(s, 0, NotHex);
    var n := if k > MAX_HEX then MAX_HEX else k;
    DigitsCut(tr, s, n);
    var d := Decoder(HexValue(s[..n]), tr, n, Size);
    if n == |s| {
      RunNil(d);
    } else {
      assert s[n..] == [s[n]] + s[n + 1..];
      RunOne(d, s[n], s[n + 1..]);
    }
  }

  lemma SplitSizeLine(tr: bool, s: seq<byte>) returns (digits: seq<byte>, ext: seq<byte>, t: seq<byte>)
    requires Run(Init(tr), s).verdict.Complete?
    ensures DigitsOk(digits) && ExtOk(ext) && s == SizeLine(digits, ext) + t
    ensures Run(Init(tr), s) == AfterSizeLine(tr, HexValue(digits), t)
  {
    hide Run, StepByte, HexValue;
    var k := SizeDigits(tr, s);
    var e := First(s, k, IsLf);
    digits, ext := s[..k], s[k..e];
    if e == |s| {
      assert digits + ext + [] == s;
      RunToExt(tr, digits, ext, []);
      RunNil(Decoder(HexValue(digits), tr, 0, Ext));
    }
    t := s[e + 1..];
    assert s == SizeLine(digits, ext) + t;
    RunSizeLine(tr, digits, ext, t);
  }

  lemma SplitCrsLf(d: Decoder, s: seq<byte>) returns (crs: nat, t: seq<byte>)
    requires d.phase.Crlf? && Run(d, s).verdict.Complete?
    ensures s == Repeat(CR, crs) + [LF] + t && Run(d, s) == Run(d.(phase := Size), t)
  {
    hide Run;
    crs := First(s, 0, NotCr);
    assert s[0..] == s;
    SkipCut(d, s, 0, crs);
    if crs == |s| {
      RunNil(d);
    } else {
      assert s[crs..] == [s[crs]] + s[crs + 1..];
      RunOne(d, s[crs], s[crs + 1..]);
    }
    t := s[crs + 1..];
    assert s == Repeat(CR, crs) + [LF] + t;
  }

  lemma CutTrailerLine(s: seq<byte>, crs: nat, e: nat)
    requires crs < e < |s| && s[..crs] == Repeat(CR, crs) && s[e] == LF
    ensures s == LineText(TrailerLine(crs, s[crs], s[crs + 1..e])) + s[e + 1..]
  {
  }

  lemma MiddleEnds(s: seq<byte>, i: nat) returns (e: nat)
    requires i <= |s| && Run(Decoder(0, true, 0, TrailerMiddle), s[i..]).verdict.Complete?
    ensures i <= e < |s| && s[e] == LF && Never(IsLf, s[i..e])
  {
    hide Run;
    e := First(s, i, IsLf);
    SkipCut(Decoder(0, true, 0, TrailerMiddle), s, i, e);
    if e == |s| {
      assert s[e..] == [];
      RunNil(Decoder(0, true, 0, TrailerMiddle));
    }
  }

  lemma SplitTrailerLine(s: seq<byte>) returns (crs: nat, line: Option<TrailerLine>, t: seq<byte>)
    requires Run(Decoder(0, true, 0, TrailerHead), s).verdict.Complete?
    ensures line.None? ==> s == Repeat(CR, crs) + [LF] + t
    ensures line.Some? ==> LineOk(line.value) && s == LineText(line.value) + t
  {
    hide Run, PushDigit;
    var d := Decoder(0, true, 0, TrailerHead);
    crs := First(s, 0, NotCr);
    assert s[0..] == s && Repeat(CR, crs) == s[..crs];
    SkipCut(d, s, 0, crs);
    if crs == |s| {
      RunNil(d);
    }
    assert s[crs..] == [s[crs]] + s[crs + 1..];
    RunOne(d, s[crs], s[crs + 1..]);
    if s[crs] == LF {
      line, t := None, s[crs + 1..];
    } else {
      var e := MiddleEnds(s, crs + 1);
      CutTrailerLine(s, crs, e);
      line, t := Some(TrailerLine(crs, s[crs], s[crs + 1..e])), s[e + 1..];
    }
  }

  lemma {:induction false} SplitTrailer(s: seq<byte>) returns (ls: seq<TrailerLine>, endCrs: nat, t: seq<byte>)
    requires Run(Decoder(0, true, 0, TrailerHead), s).verdict.Complete?
    ensures forall i | 0 <= i < |ls| :: LineOk(ls[i])
    ensures s == TrailerText(ls, endCrs) + t
    decreases |s|
  {
    hide Run, StepByte;
    var crs, line, rest := SplitTrailerLine(s);
    if line.None? {
      ls, endCrs, t := [], crs, rest;
    } else {
      RunTrailerLine(line.value, rest);
      var ls';
      ls', endCrs, t := SplitTrailer(rest);
      ls := [line.value] + ls';
      assert ls[1..] == ls';
      assert s == LineText(line.value) + (TrailerText(ls', endCrs) + t);
    }
  }

  lemma CutChunk(s: seq<byte>, c: Chunk, t: seq<byte>, u: seq<byte>, v: seq<byte>)
    requires s == SizeLine(c.digits, c.ext) + t && t == c.data + u && u == Repeat(CR, c.crs) + [LF] + v
    ensures s == ChunkText(c) + v
  {
  }

  lemma SplitChunk(tr: bool, s: seq<byte>, digits: seq<byte>, ext: seq<byte>, t: seq<byte>)
    returns (c: Chunk, t': seq<byte>)
    requires Run(Init(tr), s).verdict.Complete?
    requires DigitsOk(digits) && ExtOk(ext) && s == SizeLine(digits, ext) + t && HexValue(digits) != 0
    ensures ChunkOk(c) && s == ChunkText(c) + t'
  {
    hide Run, StepByte, HexValue;
    var v := HexValue(digits);
    var d := Decoder(v, tr, 0, Data);
    var n := if |t| < v then |t| else v;
    assert t[..n] + t[n..] == t;
    RunSizeLine(tr, digits, ext, t);
    RunData(d, t[..n], t[n..]);
    if |t| < v {
      assert t[n..] == [];
      RunNil(d.(left := v - n));
    }
    assert n == v;
    var crs;
    crs, t' := SplitCrsLf(d.(left := 0, phase := Crlf), t[v..]);
    c := Chunk(digits, ext, t[..v], crs);
    CutChunk(s, c, t, t[v..], t');
  }

  /** Soundness: whatever the decoder completes on is the text of a well-formed body. */
  lemma {:induction false} AcceptedIsBody(consumeTrailer: bool, s: seq<byte>) returns (b: Body)
    requires Run(Init(consumeTrailer), s).verdict.Complete?
    ensures BodyOk(b)
    ensures s == BodyText(b, consumeTrailer) + Run(Init(consumeTrailer), s).rest
    ensures Run(Init(consumeTrailer), s).payload == Payload(b)
    decreases |s|
  {
    hide Run, StepByte, HexValue;
    var tr := consumeTrailer;
    var digits, ext, t := SplitSizeLine(tr, s);
    if HexValue(digits) == 0 {
      var ls, endCrs, t' := [], 0, t;
      if tr { ls, endCrs, t' := SplitTrailer(t); }
      b := Body([], digits, ext, ls, endCrs);
      assert s == BodyText(b, tr) + t';
      RoundTrip(b, tr, t');
    } else {
      var c, t' := SplitChunk(tr, s, digits, ext, t);
      RunChunk(tr, c, t');
      var b' := AcceptedIsBody(tr, t');
      b := b'.(chunks := [c] + b'.chunks);
      assert b.(chunks := b.chunks[1..]) == b';
      assert s == ChunkText(c) + (BodyText(b', tr) + Run(Init(tr), s).rest);
    }
  }

  /** The decoder completes on exactly the texts of well-formed bodies, with their payload. */
  lemma AcceptsExactlyBodies(consumeTrailer: bool, s: seq<byte>, payload: seq<byte>, suffix: seq<byte>)
    ensures Run(Init(consumeTrailer), s) == Outcome(Complete, payload, Stopped(consumeTrailer), suffix) <==>
            exists b :: BodyOk(b) && s == BodyText(b, consumeTrailer) + suffix && payload == Payload(b)
  {
    hide Run, StepByte;
    if Run(Init(consumeTrailer), s) == Outcome(Complete, payload, Stopped(consumeTrailer), suffix) {
      var b := AcceptedIsBody(consumeTrailer, s);
    }
    forall b | BodyOk(b) && s == BodyText(b, consumeTrailer) + suffix && payload == Payload(b)
      ensures Run(Init(consumeTrailer), s) == Outcome(Complete, payload, Stopped(consumeTrailer), suffix)
    {
      RoundTrip(b, consumeTrailer, suffix);
    }
  }

  // The usual encoder ---------------------------------------------------------------------------------

  /** A size in hexadecimal, without leading zeros. */
  function Hex(n: nat, digits: string): seq<byte>
    requires |digits| == 16 && forall i | 0 <= i < 16 :: digits[i] as int < 128
  {
    if n < 16 then [digits[n] as int] else Hex(n / 16, digits) + [digits[n % 16] as int]
  }

  lemma PrintedDigit(d: nat, digits: string)
    requires d < 16 && (digits == LOWER_DIGITS || digits == UPPER_DIGITS)
    ensures IsHex(digits[d] as int) && HexDigit(digits[d] as int) == d
  {
    DigitPlace(digits[d] as int, d);
  }

  lemma OneDigit(b: byte)
    requires IsHex(b)
    ensures HexValue([b]) == HexDigit(b)
  {
    assert [b][..0] == [];
  }

  /** Reading a printed size, in either letter case, gives the size. */
  lemma {:induction false} HexRoundTrip(n: nat, digits: string)
    requires digits == LOWER_DIGITS || digits == UPPER_DIGITS
    ensures Every(IsHex, Hex(n, digits)) && HexValue(Hex(n, digits)) == n
    decreases n
  {
    hide HexValue, HexDigit, IsHex;
    PrintedDigit(n % 16, digits);
    if n < 16 {
      OneDigit(digits[n] as int);
    } else {
      HexRoundTrip(n / 16, digits);
      HexValueSnoc(Hex(n / 16, digits), digits[n % 16] as int);
    }
  }

  /** A size below 16^k is printed in at most k digits. */
  lemma {:induction false} HexFits(n: nat, digits: string, k: nat)
    requires (digits == LOWER_DIGITS || digits == UPPER_DIGITS) && k > 0 && n < Pow16(k)
    ensures 1 <= |Hex(n, digits)| <= k
    decreases n
  {
    if n >= 16 {
      assert Pow16(1) == 16;
      HexFits(n / 16, digits, k - 1);
    }
  }

  /** Chunks as section 4.1 of RFC 7230 has them: size, CRLF, data, CRLF; then a zero size and an empty line. */
  function Encode(chunks: seq<seq<byte>>, digits: string): seq<byte>
    requires |digits| == 16 && forall i | 0 <= i < 16 :: digits[i] as int < 128
  {
    if chunks == [] then Ascii("0\r\n\r\n")
    else Hex(|chunks[0]|, digits) + CRLF + chunks[0] + CRLF + Encode(chunks[1..], digits)
  }

  function AsChunks(chunks: seq<seq<byte>>, digits: string): seq<Chunk>
    requires |digits| == 16 && forall i | 0 <= i < 16 :: digits[i] as int < 128
  {
    seq(|chunks|, i requires 0 <= i < |chunks| => Chunk(Hex(|chunks[i]|, digits), [CR], chunks[i], 1))
  }

  function AsBody(chunks: seq<seq<byte>>, digits: string): Body
    requires |digits| == 16 && forall i | 0 <= i < 16 :: digits[i] as int < 128
  {
    Body(AsChunks(chunks, digits), [ZERO], [CR], [], 1)
  }

  lemma {:induction false} EncodeIsText(chunks: seq<seq<byte>>, digits: string)
    requires |digits| == 16 && forall i | 0 <= i < 16 :: digits[i] as int < 128
    ensures BodyText(AsBody(chunks, digits), true) == Encode(chunks, digits)
    ensures Payload(AsBody(chunks, digits)) == Flatten(chunks)
  {
    if chunks == [] {
      assert BodyText(AsBody(chunks, digits), true) == Ascii("0\r\n\r\n");
    } else {
      var b := AsBody(chunks, digits);
      EncodeIsText(chunks[1..], digits);
      assert b.(chunks := b.chunks[1..]) == AsBody(chunks[1..], digits);
      hide Hex, BodyText, Payload;
      OneEncoded(chunks[0], Hex(|chunks[0]|, digits));
      BodyTextCons(b);
    }
  }

  lemma BodyTextCons(b: Body)
    requires b.chunks != []
    ensures BodyText(b, true) == ChunkText(b.chunks[0]) + BodyText(b.(chunks := b.chunks[1..]), true)
    ensures Payload(b) == b.chunks[0].data + Payload(b.(chunks := b.chunks[1..]))
  {
  }

  lemma OneEncoded(data: seq<byte>, size: seq<byte>)
    ensures ChunkText(Chunk(size, [CR], data, 1)) == size + CRLF + data + CRLF
  {
    assert Repeat(CR, 1) == [CR];
  }

  /** Decoding what the usual encoder prints, in either letter case, gives back the data and leaves the suffix. */
  lemma EncodeRoundTrip(chunks: seq<seq<byte>>, digits: string, suffix: seq<byte>)
    requires digits == LOWER_DIGITS || digits == UPPER_DIGITS
    requires forall i | 0 <= i < |chunks| :: 0 < |chunks[i]| < TWO_TO_64
    ensures Run(Init(true), Encode(chunks, digits) + suffix) ==
            Outcome(Complete, Flatten(chunks), Stopped(true), suffix)
  {
    hide Run, Hex, HexValue, Pow16, BodyText, Payload, Encode;
    var b := AsBody(chunks, digits);
    Pow16Bound(MAX_HEX);
    forall i | 0 <= i < |b.chunks| ensures ChunkOk(b.chunks[i]) {
      HexRoundTrip(|chunks[i]|, digits);
      HexFits(|chunks[i]|, digits, MAX_HEX);
    }
    ZeroDigit();
    EncodeIsText(chunks, digits);
    RoundTrip(b, true, suffix);
  }

  lemma ZeroDigit()
    ensures SizeOk([ZERO], 0)
  {
    assert [ZERO][..0] == [];
  }
}
