/** One response from end to end: the head, the length it announces, and that many bytes of body. */
module HttpExchange {
  import opened Bytes
  import opened HeadSpec
  import opened HeadLanguage
  import opened HttpClient
  import opened StreamBuffer
  import HeadParser
  import HeadPrefix
  import RequestMessage

  // Looking up a header ---------------------------------------------------------------------------------

  function Lower(b: byte): byte { if 65 <= b <= 90 then b + 32 else b }

  predicate SameName(a: seq<byte>, b: seq<byte>) {
    |a| == |b| && forall i | 0 <= i < |a| :: Lower(a[i]) == Lower(b[i])
  }

  const SMALL: string := "abcdefghijklmnopqrstuvwxyz"
  const LARGE: string := "ABCDEFGHIJKLMNOPQRSTUVWXYZ"

  /** A capital becomes the small letter at its place in the alphabet, and every other byte stays. */
  lemma LowerIsSmall(b: byte)
    ensures forall k | 0 <= k < 26 && b == LARGE[k] as int :: Lower(b) == SMALL[k] as int
    ensures (forall k | 0 <= k < 26 :: b != LARGE[k] as int) ==> Lower(b) == b
  {
    forall k | 0 <= k < 26 && b == LARGE[k] as int ensures Lower(b) == SMALL[k] as int { LetterPlace(k); }
    if 65 <= b <= 90 { LetterPlace(b - 65); }
  }

  lemma LetterPlace(k: nat)
    requires k < 26
    ensures LARGE[k] as int == 65 + k && SMALL[k] as int == 97 + k
  {
  }

  /** The name, each letter in either case. */
  predicate IsContentLength(name: seq<byte>) {
    |name| == 14 && forall i | 0 <= i < 14 ::
      name[i] == "content-length"[i] as int || name[i] == "CONTENT-LENGTH"[i] as int
  }

  /** The lookup compares equal to exactly the spellings of the name. */
  lemma FoundIffSpelled(name: seq<byte>)
    ensures SameName(name, RequestMessage.CONTENT_LENGTH) <==> IsContentLength(name)
  {
    RequestMessage.Words();
    var key := RequestMessage.CONTENT_LENGTH;
    if |name| == 14 {
      forall i | 0 <= i < 14
        ensures Lower(name[i]) == Lower(key[i]) <==>
                name[i] == "content-length"[i] as int || name[i] == "CONTENT-LENGTH"[i] as int
      {
        OneLetter(name[i], i);
      }
    }
  }

  lemma OneLetter(b: byte, i: nat)
    requires i < 14
    ensures Lower(b) == Lower(RequestMessage.CONTENT_LENGTH[i]) <==>
            b == "content-length"[i] as int || b == "CONTENT-LENGTH"[i] as int
  {
  }

  function Cut(s: seq<byte>, p: Span): seq<byte> { if SpanIn(s, p) then Text(s, p) else [] }

  /** A continuation line has an empty name. */
  function NameText(s: seq<byte>, h: Header): seq<byte> { if h.name.Some? then Cut(s, h.name.value) else [] }

  function FirstNamed(s: seq<byte>, hs: seq<Header>, key: seq<byte>, i: nat): (k: nat)
    requires i <= |hs|
    ensures i <= k <= |hs| && forall j | i <= j < k :: !SameName(NameText(s, hs[j]), key)
    ensures k < |hs| ==> SameName(NameText(s, hs[k]), key)
    decreases |hs| - i
  {
    if i == |hs| || SameName(NameText(s, hs[i]), key) then i else FirstNamed(s, hs, key, i + 1)
  }

  /** The value of the first header of that name in any letter case; nothing if there is none. */
  function HeaderValue(s: seq<byte>, hs: seq<Header>, key: seq<byte>): seq<byte> {
    var k := FirstNamed(s, hs, key, 0);
    if k < |hs| then Cut(s, hs[k].value) else []
  }

  method GetHeaderValue(s: seq<byte>, headers: array<Header>, num: nat, key: seq<byte>) returns (value: seq<byte>)
    requires num <= headers.Length
    ensures value == HeaderValue(s, headers[..num], key)
  {
    var k := 0;
    while k < num
      invariant 0 <= k <= num && FirstNamed(s, headers[..num], key, 0) == FirstNamed(s, headers[..num], key, k)
    {
      assert headers[..num][k] == headers[k];
      if SameName(NameText(s, headers[k]), key) {
        return Cut(s, headers[k].value);
      }
      k := k + 1;
    }
    return [];
  }

  // The announced length ---------------------------------------------------------------------------------

  const INT_MAX: int := 0x7fff_ffff
  const WORD: nat := 0x1_0000_0000_0000_0000

  const MINUS: byte := 45

  predicate NotDigit(b: byte) { !IsDigit(b) }

  predicate NotSpace(b: byte) { !(b == SP || 9 <= b <= 13) }

  /** `std::stoi`: leading white space, a sign, then as many digits as there are; no digits or too many throw. */
  function StoI(t: seq<byte>): Option<int> {
    var k := First(t, 0, NotSpace);
    var negative := k < |t| && t[k] == MINUS;
    var d := if k < |t| && (t[k] == 43 || t[k] == MINUS) then k + 1 else k;
    var e := First(t, d, NotDigit);
    assert forall i | 0 <= i < |t[d..e]| :: !NotDigit(t[d..e][i]);
    if e == d then None
    else
      var v: int := RequestMessage.DecimalValue(t[d..e]);
      var n := if negative then -v else v;
      if -INT_MAX - 1 <= n <= INT_MAX then Some(n) else None
  }

  const SPACES: string := " \t\n\U{0B}\U{0C}\r"

  lemma SpaceIs(b: byte)
    ensures NotSpace(b) <==> forall k | 0 <= k < 6 :: b != SPACES[k] as int
  {
    if b == SP { assert SPACES[0] as int == b; }
    if 9 <= b <= 13 { assert SPACES[b - 8] as int == b; }
  }

  /** A number as `strtol` has it: white space, a sign or none, digits, and then something else or nothing. */
  datatype Number = Number(pad: seq<byte>, sign: seq<byte>, digits: seq<byte>, rest: seq<byte>)

  predicate NumberOk(x: Number) {
    && Never(NotSpace, x.pad) && Every(IsDigit, x.digits) && (x.rest != [] ==> NotDigit(x.rest[0]))
    && (x.sign == [] || x.sign == Ascii("+") || x.sign == Ascii("-"))
    && (x.sign == [] && x.digits == [] && x.rest != [] ==>
          NotSpace(x.rest[0]) && x.rest[0] != '+' as int && x.rest[0] != '-' as int)
  }

  /** With digits, and in the range of `int`, it is worth what the digits say; otherwise reading it throws. */
  lemma StoIReads(x: Number)
    requires NumberOk(x)
    ensures var r := StoI(x.pad + x.sign + x.digits + x.rest);
            var v: int := RequestMessage.DecimalValue(x.digits);
            var n := if x.sign == Ascii("-") then -v else v;
            if x.digits != [] && -INT_MAX - 1 <= n <= INT_MAX then r == Some(n) else r == None
  {
    hide RequestMessage.DecimalValue, NotSpace, NotDigit;
    var t := x.pad + x.sign + x.digits + x.rest;
    var k := |x.pad|;
    var d := k + |x.sign|;
    var e := d + |x.digits|;
    NumberParts(x);
    SignParts(x);
    HeadParser.FirstUnique(t, 0, k, NotSpace);
    HeadParser.FirstUnique(t, d, e, NotDigit);
    hide StoI, First;
    StoIAt(t, k, d, e);
  }

  lemma StoIAt(t: seq<byte>, k: nat, d: nat, e: nat)
    requires k <= d <= e <= |t| && First(t, 0, NotSpace) == k && First(t, d, NotDigit) == e
    requires d == if k < |t| && (t[k] == 43 || t[k] == MINUS) then k + 1 else k
    ensures Every(IsDigit, t[d..e])
    ensures var v: int := RequestMessage.DecimalValue(t[d..e]);
            var n := if k < |t| && t[k] == MINUS then -v else v;
            if d < e && -INT_MAX - 1 <= n <= INT_MAX then StoI(t) == Some(n) else StoI(t) == None
  {
    assert forall i | 0 <= i < |t[d..e]| :: !NotDigit(t[d..e][i]);
  }

  lemma NumberParts(x: Number)
    ensures var t := x.pad + x.sign + x.digits + x.rest;
            var k := |x.pad|;
            var d := k + |x.sign|;
            var e := d + |x.digits|;
            && (forall i | 0 <= i < k :: t[i] == x.pad[i]) && (forall i | d <= i < e :: t[i] == x.digits[i - d])
            && (e < |t| ==> t[e] == x.rest[0]) && (x.sign != [] ==> t[k] == x.sign[0])
            && (x.sign == [] && x.digits != [] ==> t[k] == x.digits[0]) && t[d..e] == x.digits
  {
  }

  lemma SignParts(x: Number)
    requires NumberOk(x)
    ensures x.sign != [] ==> |x.sign| == 1 && NotSpace(x.sign[0]) && (x.sign[0] == MINUS || x.sign[0] == 43)
    ensures x.sign != [] ==> (x.sign[0] == MINUS <==> x.sign == Ascii("-"))
    ensures x.digits != [] ==> NotSpace(x.digits[0]) && x.digits[0] != MINUS && x.digits[0] != 43
    ensures forall i | 0 <= i < |x.digits| :: !NotDigit(x.digits[i])
    ensures |Ascii("-")| == 1
  {
    if x.digits != [] { assert IsDigit(x.digits[0]); }
    if x.sign == Ascii("+") { assert x.sign[0] == '+' as int; }
    if x.sign == Ascii("-") { assert x.sign[0] == '-' as int; }
  }

  /** Every text is such a number. */
  lemma EveryTextIsANumber(t: seq<byte>) returns (x: Number)
    ensures NumberOk(x) && t == x.pad + x.sign + x.digits + x.rest
  {
    var k := First(t, 0, NotSpace);
    var d := if k < |t| && (t[k] == '+' as int || t[k] == '-' as int) then k + 1 else k;
    var e := First(t, d, NotDigit);
    x := Number(t[..k], t[k..d], t[d..e], t[e..]);
    Reassembled(t, k, d, e);
    if d > k { SignIs(t, k); }
  }

  lemma Reassembled(t: seq<byte>, k: nat, d: nat, e: nat)
    requires k <= d <= e <= |t|
    ensures t == t[..k] + t[k..d] + t[d..e] + t[e..]
  {
  }

  lemma SignIs(t: seq<byte>, k: nat)
    requires k < |t| && (t[k] == '+' as int || t[k] == '-' as int)
    ensures t[k..k + 1] == Ascii("+") || t[k..k + 1] == Ascii("-")
  {
  }

  /** The text the length is read from; nothing if there is no such header. */
  function LengthText(head: seq<byte>): seq<byte> {
    HeaderValue(head, ParseResponse(head, 100).headers, RequestMessage.CONTENT_LENGTH)
  }

  /** The lengths the client can work with: none given, or a number that is not negative. */
  predicate Readable(value: seq<byte>) { value == [] || (StoI(value).Some? && StoI(value).value >= 0) }

  function Wanted(value: seq<byte>): nat
    requires Readable(value)
  {
    if value == [] then 0 else StoI(value).value
  }

  /** `body_len`, a `size_t`: a negative number wraps around. */
  function BodyLen(value: seq<byte>): (r: Option<nat>)
    ensures r.Some? ==> r.value < WORD
  {
    if value == [] then Some(0)
    else
      match StoI(value)
      case None => None
      case Some(v) => Some(if v < 0 then WORD + v else v)
  }

  /** A body is read, for any number of bytes waiting, exactly when the length is one the client can work with. */
  lemma ReadableIff(value: seq<byte>, waiting: nat)
    requires waiting < LONGEST
    ensures Readable(value) <==> BodyLen(value).Some? && BodyLen(value).value <= waiting + MAX_STRING
    ensures Readable(value) ==> BodyLen(value) == Some(Wanted(value))
  {
    hide StoI;
    IntRange(value);
  }

  lemma IntRange(t: seq<byte>)
    ensures StoI(t).Some? ==> -INT_MAX - 1 <= StoI(t).value <= INT_MAX
  {
  }

  // The exchange -------------------------------------------------------------------------------------------

  datatype Reply = NoHead | Exception | Received(status: WrittenStatus, body: seq<byte>)

  /** No buffer holds more than this. */
  const LONGEST: nat := 0x4000_0000_0000_0000

  /** What the client makes of everything the server sends, as if it came in one piece. */
  function Expected(whole: seq<byte>): Reply {
    var head := Upto(whole, DCRLF);
    if !EndsWith(head, DCRLF) then NoHead
    else if !Readable(LengthText(head)) then Exception
    else
      var rest := whole[Min(|head|, |whole|)..];
      Received(StatusWritten(head), rest[..Min(Wanted(LengthText(head)), |rest|)])
  }

  /** The same reply with less of the body. */
  predicate CutReply(r: Reply, full: Reply) {
    r.Received? && full.Received? && r.status == full.status && r.body <= full.body
  }

  lemma BodyReplied(whole: seq<byte>, body: seq<byte>)
    requires var head := Upto(whole, DCRLF);
             && EndsWith(head, DCRLF) && head <= whole && Readable(LengthText(head))
             && body <= whole[|head|..] && |body| <= Wanted(LengthText(head))
    ensures var head := Upto(whole, DCRLF);
            && CutReply(Received(StatusWritten(head), body), Expected(whole))
            && (|body| == Min(Wanted(LengthText(head)), |whole| - |head|) ==>
                  Expected(whole) == Received(StatusWritten(head), body))
  {
    hide Upto, StatusWritten, LengthText, Readable, Wanted, EndsWith;
  }

  /**
    * `request` from its first receive on, for a client that has not been used before. Unless a receive fails,
    * the reply depends on the bytes of the stream alone and not on how they were cut. A failure while the head
    * is read is an exception; one while the body is read leaves a shorter body.
    */
  method Exchange(c: Client, sse: bool) returns (r: Reply)
    requires c.Valid() && c.headers.Length == 100 && c.streambuf.Contents() == []
    modifies c.socket, c.streambuf, c.headers
    ensures c.Valid() && c.socket.failures >= old(c.socket.failures)
    ensures |old(c.socket.Left())| < LONGEST && c.socket.failures == old(c.socket.failures) ==>
              r == Expected(old(c.socket.Left()))
    ensures |old(c.socket.Left())| < LONGEST && c.socket.failures > old(c.socket.failures) ==>
              r.Exception? || CutReply(r, Expected(old(c.socket.Left())))
  {
    hide ParseResponse, FindFrom, HeaderValue, BodyLen, StatusWritten, Delivered, Returned, Vanished, Readable, Wanted;
    hide BodyCutShort;
    ghost var whole := c.socket.Left();
    assert c.Ahead() == whole;
    var head, ok, written, num := c.ReadHeaders(sse);
    UptoIsShortest(whole, DCRLF);
    if head.None? {
      return Exception;
    }
    if !ok {
      return NoHead;
    }
    var value := GetHeaderValue(head.value, c.headers, num, RequestMessage.CONTENT_LENGTH);
    ghost var waiting, avail := |c.streambuf.Contents()|, |c.socket.Left()|;
    assert value == LengthText(head.value) && c.Ahead() == whole[|head.value|..];
    if waiting < LONGEST { ReadableIff(value, waiting); }
    var len := BodyLen(value);
    if len.None? {
      return Exception;
    }
    if len.value == 0 {
      if waiting < LONGEST { BodyReplied(whole, []); }
      return Received(written, []);
    }
    var body, sizes := c.ReadBody(len.value);
    if body.None? {
      return Exception;
    }
    BodyIsExact(waiting, len.value, avail, sizes);
    if waiting < LONGEST { BodyReplied(whole, body.value); }
    r := Received(written, body.value);
  }

  // From a printed response to the reply ---------------------------------------------------------------------

  /** The last line and the empty line after it end in CRLF, as the client's delimiter demands. */
  predicate EndsInCrlfs(m: Message) {
    m.endCrlf && if m.lines == [] then m.msgCrlf else m.lines[|m.lines| - 1].crlf
  }

  /** Line `j` is the first content-length. */
  predicate FirstLength(m: Message, j: nat) {
    && j < |m.lines| && m.lines[j].Field? && IsContentLength(m.lines[j].name)
    && forall i | 0 <= i < j :: m.lines[i].Field? ==> !IsContentLength(m.lines[i].name)
  }

  lemma StoIReadsDecimal(n: nat)
    requires n <= INT_MAX
    ensures StoI(RequestMessage.Decimal(n)) == Some(n)
  {
    var t := RequestMessage.Decimal(n);
    assert IsDigit(t[0]);
    assert First(t, 0, NotSpace) == 0;
    var e := First(t, 0, NotDigit);
    assert forall i | 0 <= i < |t| :: IsDigit(t[i]);
    assert t[0..e] == t;
    RequestMessage.DecimalRoundTrip(n);
  }

  lemma EndsLater(a: seq<byte>, b: seq<byte>, w: seq<byte>)
    requires EndsWith(b, w)
    ensures EndsWith(a + b, w)
  {
    assert (a + b)[|a + b| - |w|..] == b[|b| - |w|..];
  }

  lemma TwoLineEnds(a: seq<byte>)
    requires EndsWith(a, CRLF)
    ensures EndsWith(a + CRLF, DCRLF)
  {
    assert (a + CRLF)[|a| - 2..] == a[|a| - 2..] + CRLF == DCRLF;
  }

  lemma {:induction false} LinesEnd(ls: seq<Line>)
    requires ls != [] && ls[|ls| - 1].crlf
    ensures EndsWith(LinesText(ls), CRLF)
  {
    hide EndsWith;
    if |ls| == 1 {
      LineEnds(ls[0]);
      assert LinesText(ls) == LineText(ls[0]);
    } else {
      LinesEnd(ls[1..]);
      EndsLater(LineText(ls[0]), LinesText(ls[1..]), CRLF);
    }
  }

  lemma LineEnds(l: Line)
    requires l.crlf
    ensures EndsWith(LineText(l), CRLF)
  {
    var t := LineText(l);
    assert t[|t| - 2..] == CRLF;
  }

  lemma TextEnds(m: Message)
    requires MessageOk(m) && EndsInCrlfs(m)
    ensures EndsWith(MessageText(m), DCRLF)
  {
    hide EndsWith, LinesText, StatusPrefix;
    var front := StatusText(m) + LinesText(m.lines);
    if m.lines == [] {
      assert EndsWith(CRLF, CRLF) by { EndsSelf(); }
      EndsLater(StatusPrefix(m.minor, m.code) + m.msg, CRLF, CRLF);
      NoLines();
      assert front == StatusText(m);
    } else {
      LinesEnd(m.lines);
      EndsLater(StatusText(m), LinesText(m.lines), CRLF);
    }
    TwoLineEnds(front);
  }

  lemma EndsSelf()
    ensures EndsWith(CRLF, CRLF) && EndsWith(DCRLF, DCRLF)
  {
  }

  lemma NoLines()
    ensures LinesText([]) == []
  {
  }

  /** A delimiter is an empty line. */
  lemma DelimiterIsEmptyLine(s: seq<byte>, n: nat)
    requires n <= |s| && EndsWith(s[..n], DCRLF)
    ensures HeadPrefix.EmptyLineEndsAt(s, n)
  {
    assert s[..n][n - 4..] == DCRLF;
    assert DCRLF[1] == s[n - 3] && DCRLF[2] == s[n - 2] && DCRLF[3] == s[n - 1];
  }

  /** The delimiter search cuts exactly the printed head out of the stream. */
  lemma HeadIsCutOut(m: Message, rest: seq<byte>)
    requires MessageOk(m) && EndsInCrlfs(m)
    ensures Upto(MessageText(m) + rest, DCRLF) == MessageText(m)
  {
    var text := MessageText(m);
    var whole := text + rest;
    var n := |text|;
    ResponseRoundTrip(m, rest, |m.lines|);
    TextEnds(m);
    hide ParseResponse, Upto, MessageText, EndsWith;
    assert whole[..n] == text;
    HeadPrefix.StopsAtFirstEmptyLine(whole, |m.lines|);
    UptoIsShortest(whole, DCRLF);
    var u := Upto(whole, DCRLF);
    assert u == whole[..|u|];
    if |u| < n {
      DelimiterIsEmptyLine(whole, |u|);
    }
  }

  lemma FirstNamedIs(s: seq<byte>, hs: seq<Header>, key: seq<byte>, j: nat)
    requires j < |hs| && SameName(NameText(s, hs[j]), key)
    requires forall i | 0 <= i < j :: !SameName(NameText(s, hs[i]), key)
    ensures FirstNamed(s, hs, key, 0) == j
  {
  }

  /** The value of the first content-length of a printed head is the text the client's parser finds. */
  lemma LengthTextIsFound(m: Message, j: nat)
    requires MessageOk(m) && |m.lines| <= 100 && FirstLength(m, j)
    ensures LengthText(MessageText(m)) == m.lines[j].value
  {
    var s := MessageText(m);
    ResponseRoundTrip(m, [], 100);
    assert s + [] == s;
    hide ParseResponse, MessageText, StatusText, SameName, IsContentLength;
    var hs := ParseResponse(s, 100).headers;
    var key := RequestMessage.CONTENT_LENGTH;
    assert Says(s, hs[j], m.lines[j]);
    FoundIffSpelled(NameText(s, hs[j]));
    forall i | 0 <= i < j ensures !SameName(NameText(s, hs[i]), key) {
      assert Says(s, hs[i], m.lines[i]);
      FoundIffSpelled(NameText(s, hs[i]));
    }
    FirstNamedIs(s, hs, key, j);
  }

  lemma StatusIsFound(m: Message)
    requires MessageOk(m)
    ensures StatusWritten(MessageText(m)) == WrittenStatus(m.minor, m.code, Some(Span(13, 13 + |m.msg|)))
  {
    var s := MessageText(m);
    ResponseRoundTrip(m, [], |m.lines|);
    assert s + [] == s;
    hide MessageText, StatusText, StatusLine, HeadersFrom, StatusWritten;
    WrittenIsFinal(s, []);
  }

  /** A printed response, whatever its lines, its body and what follows, is replied with its status and its body. */
  lemma PrintedIsReceived(m: Message, j: nat, body: seq<byte>, suffix: seq<byte>)
    requires MessageOk(m) && |m.lines| <= 100 && EndsInCrlfs(m) && FirstLength(m, j)
    requires m.lines[j].value == RequestMessage.Decimal(|body|) && |body| <= INT_MAX
    ensures Expected(MessageText(m) + (body + suffix)) ==
            Received(WrittenStatus(m.minor, m.code, Some(Span(13, 13 + |m.msg|))), body)
  {
    HeadIsCutOut(m, body + suffix);
    LengthTextIsFound(m, j);
    StoIReadsDecimal(|body|);
    StatusIsFound(m);
    TextEnds(m);
    hide MessageText, Upto, LengthText, StatusWritten, EndsWith, MessageOk, EndsInCrlfs, FirstLength, StoI;
    var head := MessageText(m);
    var whole := head + (body + suffix);
    assert whole[|head|..] == body + suffix;
    assert (body + suffix)[..|body|] == body;
  }

  /** End to end: unless a receive fails, the client replies with the status and the body the server printed. */
  method Fetch(c: Client, m: Message, j: nat, body: seq<byte>, suffix: seq<byte>, sse: bool) returns (r: Reply)
    requires c.Valid() && c.headers.Length == 100 && c.streambuf.Contents() == []
    requires MessageOk(m) && |m.lines| <= 100 && EndsInCrlfs(m) && FirstLength(m, j)
    requires m.lines[j].value == RequestMessage.Decimal(|body|) && |body| <= INT_MAX
    requires c.socket.Left() == MessageText(m) + (body + suffix) && |c.socket.Left()| < LONGEST
    modifies c.socket, c.streambuf, c.headers
    ensures var status := WrittenStatus(m.minor, m.code, Some(Span(13, 13 + |m.msg|)));
            if c.socket.failures == old(c.socket.failures) then r == Received(status, body)
            else r.Exception? || (r.Received? && r.status == status && r.body <= body)
  {
    PrintedIsReceived(m, j, body, suffix);
    hide MessageText, Expected, StreamBuf.Valid, StreamBuf.Contents;
    r := Exchange(c, sse);
  }

  /** A negative length is an exception, although the head is in order and bytes follow it. */
  lemma NegativeIsRefused(m: Message, j: nat, n: nat, rest: seq<byte>)
    requires MessageOk(m) && |m.lines| <= 100 && EndsInCrlfs(m) && FirstLength(m, j)
    requires n > 0 && m.lines[j].value == [MINUS] + RequestMessage.Decimal(n)
    ensures Expected(MessageText(m) + rest) == Exception
  {
    HeadIsCutOut(m, rest);
    LengthTextIsFound(m, j);
    StoIReadsNegative(n);
    TextEnds(m);
    hide MessageText, Upto, LengthText, EndsWith, MessageOk, EndsInCrlfs, FirstLength, StoI;
  }

  lemma StoIReadsNegative(n: nat)
    ensures var r := StoI([MINUS] + RequestMessage.Decimal(n));
            if n <= INT_MAX + 1 then r.Some? && r.value + n == 0 else r.None?
  {
    var d := RequestMessage.Decimal(n);
    RequestMessage.DecimalRoundTrip(n);
    hide RequestMessage.Decimal, RequestMessage.DecimalValue;
    var t := [MINUS] + d;
    assert First(t, 0, NotSpace) == 0;
    var e := First(t, 1, NotDigit);
    assert forall i | 1 <= i < |t| :: IsDigit(d[i - 1]) && t[i] == d[i - 1];
    assert t[1..e] == d;
  }

  /** One such response: status 200 and "Content-Length: -1". */
  lemma MinusOneIsRefused(rest: seq<byte>)
    ensures var m := Message(0, 200, [79, 75], true,
                             [Field(RequestMessage.CONTENT_LENGTH, [SP], [MINUS, 49], true)], true);
            MessageOk(m) && Expected(MessageText(m) + rest) == Exception
  {
    var l := Field(RequestMessage.CONTENT_LENGTH, [SP], [MINUS, 49], true);
    var m := Message(0, 200, [79, 75], true, [l], true);
    assert RequestMessage.Decimal(1) == [49];
    assert [MINUS] + [49] == [MINUS, 49];
    hide MessageText, Expected;
    assert LineOk(l, true);
    NegativeIsRefused(m, 0, 1, rest);
  }

  /** Nine letters and an empty line. */
  const LETTERS: seq<byte> := [65, 65, 65, 65, 65, 65, 65, 65, 65, CR, LF, CR, LF]

  lemma LettersAreRejected()
    ensures ParseResponse(LETTERS, 100) == HeadSpec.Response(Rejected, 0, None, [])
    ensures StatusWritten(LETTERS) == NO_STATUS
  {
    assert LETTERS[0..7][0] == 65;
    assert Version(LETTERS, 0) == Bad;
  }

  lemma LettersEnd(m: nat)
    ensures m < |LETTERS| ==> !HeadPrefix.EmptyLineEndsAt(LETTERS, m)
    ensures EndsWith(LETTERS, DCRLF)
  {
    assert LETTERS[9..13] == DCRLF;
  }

  lemma LettersAreCutOut()
    ensures Upto(LETTERS, DCRLF) == LETTERS
  {
    hide Upto, EndsWith, HeadPrefix.EmptyLineEndsAt;
    UptoIsShortest(LETTERS, DCRLF);
    var u := Upto(LETTERS, DCRLF);
    LettersEnd(|u|);
    assert LETTERS[..|LETTERS|] == LETTERS;
    assert u == LETTERS[..|u|];
    if |u| < |LETTERS| {
      DelimiterIsEmptyLine(LETTERS, |u|);
    }
  }

  /** A head the parser rejects is reported as read: the reply has no status and no body. */
  lemma RejectedHeadIsRead()
    ensures ParseResponse(LETTERS, 100).verdict.Rejected? && Expected(LETTERS) == Received(NO_STATUS, [])
  {
    hide ParseResponse, Upto, StatusWritten, EndsWith;
    LettersAreRejected();
    LettersEnd(0);
    LettersAreCutOut();
  }
}
