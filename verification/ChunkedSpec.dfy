/** The chunked transfer decoder as a byte-at-a-time machine. */
module ChunkedSpec {
  import opened Bytes

  const TWO_TO_64: nat := 0x1_0000_0000_0000_0000
  const MAX_HEX: nat := 16

  datatype Phase = Size | Ext | Data | Crlf | TrailerHead | TrailerMiddle

  datatype Decoder = Decoder(left: nat, consumeTrailer: bool, hexCount: nat, phase: Phase)

  datatype Step = Take(next: Decoder, out: seq<byte>) | Finish(next: Decoder) | Reject

  datatype Verdict = Incomplete | Complete | Error

  /** What one call leaves behind: payload produced, decoder state, bytes not decoded. */
  datatype Outcome = Outcome(verdict: Verdict, payload: seq<byte>, dec: Decoder, rest: seq<byte>)

  /** The zero-filled decoder, with the caller's choice of trailer handling. */
  function Init(consumeTrailer: bool): Decoder {
    Decoder(0, consumeTrailer, 0, Size)
  }

  function HexDigit(b: byte): (v: int)
    ensures -1 <= v < 16
  {
    if 48 <= b <= 57 then b - 48
    else if 65 <= b <= 70 then b - 55
    else if 97 <= b <= 102 then b - 87
    else -1
  }

  const LOWER_DIGITS: string := "0123456789abcdef"
  const UPPER_DIGITS: string := "0123456789ABCDEF"

  /** A digit is worth its place in the alphabet, in either letter case, and nothing else is a digit. */
  lemma DigitIsItsPlace(b: byte, v: nat)
    requires v < 16
    ensures HexDigit(b) == v <==> b == LOWER_DIGITS[v] as int || b == UPPER_DIGITS[v] as int
    ensures HexDigit(b) == -1 <==> forall k | 0 <= k < 16 :: b != LOWER_DIGITS[k] as int && b != UPPER_DIGITS[k] as int
  {
    if HexDigit(b) == -1 {
      forall k | 0 <= k < 16 ensures b != LOWER_DIGITS[k] as int && b != UPPER_DIGITS[k] as int {
        DigitPlace(b, k);
      }
    } else {
      DigitPlace(b, HexDigit(b));
    }
    DigitPlace(b, v);
  }

  lemma DigitPlace(b: byte, v: nat)
    requires v < 16
    ensures HexDigit(b) == v <==> b == LOWER_DIGITS[v] as int || b == UPPER_DIGITS[v] as int
  {
  }

  predicate IsHex(b: byte) { HexDigit(b) != -1 }

  predicate NotHex(b: byte) { HexDigit(b) == -1 }

  function HexValue(ds: seq<byte>): nat
    requires Every(IsHex, ds)
  {
    if ds == [] then 0
    else
      assert IsHex(ds[|ds| - 1]);
      HexValue(ds[..|ds| - 1]) * 16 + HexDigit(ds[|ds| - 1])
  }

  function Pow16(n: nat): (r: nat)
    ensures r >= 1
  {
    if n == 0 then 1 else 16 * Pow16(n - 1)
  }

  lemma Pow16Bound(n: nat)
    requires n <= MAX_HEX
    ensures Pow16(n) <= Pow16(MAX_HEX) == TWO_TO_64
    decreases MAX_HEX - n
  {
    if n < MAX_HEX {
      Pow16Bound(n + 1);
    } else {
      assert Pow16(8) == 0x1_0000_0000;
    }
  }

  // The machine -----------------------------------------------------------

  function ExtStep(d: Decoder, b: byte): Step {
    if b != LF then Take(d, [])
    else if d.left != 0 then Take(d.(phase := Data), [])
    else if d.consumeTrailer then Take(d.(phase := TrailerHead), [])
    else Finish(d)
  }

  /** One more hexadecimal digit, in the arithmetic of a 64-bit `size_t`. */
  function PushDigit(left: nat, v: nat): nat {
    (left * 16 + v) % TWO_TO_64
  }

  function StepByte(d: Decoder, b: byte): Step {
    match d.phase
    case Size =>
      if NotHex(b) then
        if d.hexCount == 0 then Reject else ExtStep(d.(hexCount := 0, phase := Ext), b)
      else if d.hexCount == MAX_HEX then Reject
      else Take(d.(left := PushDigit(d.left, HexDigit(b)), hexCount := d.hexCount + 1), [])
    case Ext => ExtStep(d, b)
    case Data =>
      if d.left <= 1 then Take(d.(left := 0, phase := Crlf), [b])
      else Take(d.(left := d.left - 1), [b])
    case Crlf =>
      if b == CR then Take(d, [])
      else if b == LF then Take(d.(phase := Size), [])
      else Reject
    case TrailerHead =>
      if b == CR then Take(d, [])
      else if b == LF then Finish(d)
      else Take(d.(phase := TrailerMiddle), [])
    case TrailerMiddle =>
      if b == LF then Take(d.(phase := TrailerHead), []) else Take(d, [])
  }

  function Prepend(out: seq<byte>, o: Outcome): Outcome {
    o.(payload := out + o.payload)
  }

  function Run(d: Decoder, s: seq<byte>): Outcome
    decreases |s|
  {
    if s == [] then Outcome(Incomplete, [], d, [])
    else
      match StepByte(d, s[0])
      case Take(next, out) => Prepend(out, Run(next, s[1..]))
      case Finish(next) => Outcome(Complete, [], next, s[1..])
      case Reject => Outcome(Error, [], d, s)
  }

  lemma RunNil(d: Decoder)
    ensures Run(d, []) == Outcome(Incomplete, [], d, [])
  {
  }

  function AfterStep(st: Step, d: Decoder, b: byte, t: seq<byte>): Outcome {
    match st
    case Take(next, out) => if out == [] then Run(next, t) else Prepend(out, Run(next, t))
    case Finish(next) => Outcome(Complete, [], next, t)
    case Reject => Outcome(Error, [], d, [b] + t)
  }

  lemma RunOne(d: Decoder, b: byte, t: seq<byte>)
    ensures Run(d, [b] + t) == AfterStep(StepByte(d, b), d, b, t)
  {
    assert ([b] + t)[1..] == t;
    var st := StepByte(d, b);
    if st.Take? && st.out == [] {
      assert [] + Run(st.next, t).payload == Run(st.next, t).payload;
    }
  }

  /** Feeding the pieces one call after another, as long as the calls report "incomplete". */
  function Feed(d: Decoder, pieces: seq<seq<byte>>): Outcome
    decreases |pieces|
  {
    if pieces == [] then Outcome(Incomplete, [], d, [])
    else
      var o := Run(d, pieces[0]);
      if o.verdict.Incomplete? then Prepend(o.payload, Feed(o.dec, pieces[1..]))
      else o.(rest := o.rest + Flatten(pieces[1..]))
  }

  // Streaming -------------------------------------------------------------

  lemma {:induction false} RunConcat(d: Decoder, s: seq<byte>, t: seq<byte>)
    ensures var o := Run(d, s);
            Run(d, s + t) == if o.verdict.Incomplete? then Prepend(o.payload, Run(o.dec, t))
                             else o.(rest := o.rest + t)
    decreases |s|
  {
    if s == [] {
      assert s + t == t;
    } else {
      assert (s + t)[1..] == s[1..] + t;
      var st := StepByte(d, s[0]);
      if st.Take? {
        RunConcat(st.next, s[1..], t);
        var o := Run(st.next, s[1..]);
        if o.verdict.Incomplete? {
          assert st.out + (o.payload + Run(o.dec, t).payload) == (st.out + o.payload) + Run(o.dec, t).payload;
        }
      }
    }
  }

  /** Cutting the input anywhere changes nothing: payload, state, verdict and tail agree. */
  lemma {:induction false} StreamingEqualsOneShot(d: Decoder, pieces: seq<seq<byte>>)
    ensures Feed(d, pieces) == Run(d, Flatten(pieces))
    decreases |pieces|
  {
    if pieces != [] {
      RunConcat(d, pieces[0], Flatten(pieces[1..]));
      StreamingEqualsOneShot(Run(d, pieces[0]).dec, pieces[1..]);
    }
  }

  // State invariant -------------------------------------------------------

  predicate Valid(d: Decoder) {
    && (d.phase.Size? ==> d.hexCount <= MAX_HEX && d.left < Pow16(d.hexCount))
    && (!d.phase.Size? ==> d.hexCount == 0)
    && (d.phase.Data? ==> d.left > 0)
    && (d.phase in {Crlf, TrailerHead, TrailerMiddle} ==> d.left == 0)
    && (d.phase in {TrailerHead, TrailerMiddle} ==> d.consumeTrailer)
    && d.left < TWO_TO_64
  }

  /** Accumulating one more digit stays under 2^64, so the machine word never wraps. */
  lemma SizeNeverWraps(d: Decoder, b: byte)
    requires Valid(d) && d.phase.Size? && d.hexCount < MAX_HEX && IsHex(b)
    ensures d.left * 16 + HexDigit(b) < Pow16(d.hexCount + 1) <= TWO_TO_64
    ensures PushDigit(d.left, HexDigit(b)) == d.left * 16 + HexDigit(b)
    ensures StepByte(d, b) == Take(d.(left := d.left * 16 + HexDigit(b), hexCount := d.hexCount + 1), [])
  {
    Pow16Bound(d.hexCount + 1);
  }

  lemma StepKeepsValid(d: Decoder, b: byte)
    requires Valid(d)
    ensures !StepByte(d, b).Reject? ==> Valid(StepByte(d, b).next)
  {
    hide Pow16;
    assert Pow16(0) >= 1;
    if d.phase.Size? && d.hexCount < MAX_HEX && IsHex(b) {
      SizeNeverWraps(d, b);
    }
  }

  lemma {:induction false} RunKeepsValid(d: Decoder, s: seq<byte>)
    requires Valid(d)
    ensures Valid(Run(d, s).dec)
    ensures |Run(d, s).payload| + |Run(d, s).rest| <= |s|
    ensures Run(d, s).verdict.Incomplete? ==> Run(d, s).rest == []
    decreases |s|
  {
    if s != [] {
      StepKeepsValid(d, s[0]);
      var st := StepByte(d, s[0]);
      if st.Take? {
        RunKeepsValid(st.next, s[1..]);
      }
    }
  }

  /** `d` is reading a size whose digits are the last `hexCount` bytes of `seen`. */
  predicate SizeMatches(d: Decoder, seen: seq<byte>) {
    d.phase.Size? ==>
      && d.hexCount <= |seen|
      && Every(IsHex, seen[|seen| - d.hexCount..])
      && d.left == HexValue(seen[|seen| - d.hexCount..])
  }

  lemma HexValueSnoc(ds: seq<byte>, b: byte)
    requires Every(IsHex, ds) && IsHex(b)
    ensures Every(IsHex, ds + [b]) && HexValue(ds + [b]) == HexValue(ds) * 16 + HexDigit(b)
  {
    assert (ds + [b])[..|ds|] == ds;
  }

  lemma TailSnoc(s: seq<byte>, i: nat, b: byte)
    requires i <= |s|
    ensures (s + [b])[i..] == s[i..] + [b]
  {
  }

  lemma StepKeepsSizeMatches(d: Decoder, seen: seq<byte>, b: byte)
    requires Valid(d) && SizeMatches(d, seen) && StepByte(d, b).Take?
    ensures SizeMatches(StepByte(d, b).next, seen + [b])
  {
    hide PushDigit, Pow16;
    if d.phase.Size? && IsHex(b) {
      SizeNeverWraps(d, b);
      var ds := seen[|seen| - d.hexCount..];
      HexValueSnoc(ds, b);
      TailSnoc(seen, |seen| - d.hexCount, b);
    }
  }

  lemma {:induction false} RunKeepsSizeMatches(d: Decoder, seen: seq<byte>, s: seq<byte>)
    requires Valid(d) && SizeMatches(d, seen)
    ensures Run(d, s).verdict.Incomplete? ==> SizeMatches(Run(d, s).dec, seen + s)
    decreases |s|
  {
    if s == [] {
      assert seen + s == seen;
    } else {
      var st := StepByte(d, s[0]);
      if st.Take? {
        StepKeepsValid(d, s[0]);
        StepKeepsSizeMatches(d, seen, s[0]);
        RunKeepsSizeMatches(st.next, seen + [s[0]], s[1..]);
        assert seen + [s[0]] + s[1..] == seen + s;
      }
    }
  }

  lemma RunFromStart(consumeTrailer: bool, s: seq<byte>)
    ensures Valid(Run(Init(consumeTrailer), s).dec)
    ensures Run(Init(consumeTrailer), s).verdict.Incomplete? ==> SizeMatches(Run(Init(consumeTrailer), s).dec, s)
  {
    var d := Init(consumeTrailer);
    assert Valid(d) && SizeMatches(d, []) && [] + s == s;
    hide Run, StepByte, SizeMatches, Valid;
    RunKeepsValid(d, s);
    RunKeepsSizeMatches(d, [], s);
  }

  /** Every state a zero-filled decoder can reach, whatever bytes it was fed in whatever pieces. */
  lemma {:induction false} ReachableStates(consumeTrailer: bool, pieces: seq<seq<byte>>)
    ensures Valid(Feed(Init(consumeTrailer), pieces).dec)
    ensures Feed(Init(consumeTrailer), pieces).verdict.Incomplete? ==>
              SizeMatches(Feed(Init(consumeTrailer), pieces).dec, Flatten(pieces))
  {
    hide *;
    StreamingEqualsOneShot(Init(consumeTrailer), pieces);
    RunFromStart(consumeTrailer, Flatten(pieces));
  }
}
