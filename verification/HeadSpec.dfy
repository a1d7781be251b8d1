/** Reference meaning of the HTTP/1.x head parser: sections 3.1.2, 3.2 and 3.2.6 of RFC 7230. */
module HeadSpec {
  import opened Bytes

  /** A token as a pair of offsets into the buffer. */
  datatype Span = Span(start: nat, end: nat)

  /** `name` is absent on a continuation line. */
  datatype Header = Header(name: Option<Span>, value: Span)

  datatype Scan<+T> = Ok(value: T, next: nat) | Bad | More

  datatype Verdict = Accepted | Rejected | Partial

  datatype Fields = Fields(verdict: Verdict, next: nat, headers: seq<Header>)

  datatype Status = Status(minor: nat, code: nat, msg: Span)

  datatype Response = Response(verdict: Verdict, consumed: nat, status: Option<Status>, headers: seq<Header>)

  datatype Request = Request(verdict: Verdict, consumed: nat, line: Option<RequestLine>, headers: seq<Header>)

  datatype RequestLine = RequestLine(verb: Span, path: Span, minor: nat)

  /** "HTTP/1." */
  const HTTP1: seq<byte> := [72, 84, 84, 80, 47, 49, 46]

  predicate IsCtl(b: byte) { (b < SP && b != HT) || b == 127 }

  /** A byte that ends or breaks a request-line token. */
  predicate IsSpaceOrCtl(b: byte) { b <= SP || b == 127 }

  predicate IsTchar(b: byte) {
    IsDigit(b) || 65 <= b <= 90 || 97 <= b <= 122 ||
    b in {33, 35, 36, 37, 38, 39, 42, 43, 45, 46, 94, 95, 96, 124, 126}
  }

  predicate NotTchar(b: byte) { !IsTchar(b) }

  function Text(s: seq<byte>, p: Span): seq<byte>
    requires p.start <= p.end <= |s|
  {
    s[p.start..p.end]
  }

  predicate SpanIn(s: seq<byte>, p: Span) { p.start <= p.end <= |s| }

  // Lines -------------------------------------------------------------------

  /** The end of a line standing at `k`: CRLF or a bare LF. */
  function LineEnd(s: seq<byte>, k: nat): Scan<()>
    requires k < |s|
  {
    if s[k] == LF then Ok((), k + 1)
    else if s[k] != CR then Bad
    else if k + 1 == |s| then More
    else if s[k + 1] == LF then Ok((), k + 2)
    else Bad
  }

  /** Everything up to the next control byte, which must be a line end. */
  function TokenToEol(s: seq<byte>, i: nat): Scan<Span>
    requires i <= |s|
  {
    var k := First(s, i, IsCtl);
    if k == |s| then More
    else
      match LineEnd(s, k)
      case Ok(_, next) => Ok(Span(i, k), next)
      case Bad => Bad
      case More => More
  }

  function WithName(name: Option<Span>, v: Scan<Span>): Scan<Header> {
    match v
    case Ok(value, next) => Ok(Header(name, value), next)
    case Bad => Bad
    case More => More
  }

  function HeaderLine(s: seq<byte>, i: nat, first: bool): Scan<Header>
    requires i < |s|
  {
    if !first && IsBlank(s[i]) then WithName(None, TokenToEol(s, i))
    else
      var k := First(s, i, NotTchar);
      if k == |s| then More
      else if s[k] != COLON || k == i then Bad
      else WithName(Some(Span(i, k)), FieldValue(s, k + 1))
  }

  /** The value after the colon, without the blanks in front of it. */
  function FieldValue(s: seq<byte>, i: nat): Scan<Span>
    requires i <= |s|
  {
    var v := First(s, i, NotBlank);
    if v == |s| then More else TokenToEol(s, v)
  }

  lemma LineAdvances(s: seq<byte>, i: nat, first: bool)
    requires i < |s|
    ensures HeaderLine(s, i, first).Ok? ==> i < HeaderLine(s, i, first).next <= |s|
  {
  }

  /** Header lines from `i` until the empty line; `got` are the ones already counted. */
  function HeadersFrom(s: seq<byte>, i: nat, got: seq<Header>, max: nat): Fields
    requires i <= |s|
    decreases |s| - i
  {
    if i == |s| then Fields(Partial, i, got)
    else if s[i] == CR || s[i] == LF then
      match LineEnd(s, i)
      case Ok(_, next) => Fields(Accepted, next, got)
      case Bad => Fields(Rejected, i, got)
      case More => Fields(Partial, i, got)
    else if |got| == max then Fields(Rejected, i, got)
    else
      LineAdvances(s, i, got == []);
      match HeaderLine(s, i, got == [])
      case Ok(h, next) => HeadersFrom(s, next, got + [h], max)
      case Bad => Fields(Rejected, i, got)
      case More => Fields(Partial, i, got)
  }

  lemma HeadersStep(s: seq<byte>, i: nat, got: seq<Header>, max: nat)
    requires i < |s| && s[i] != CR && s[i] != LF && |got| != max && HeaderLine(s, i, got == []).Ok?
    ensures var l := HeaderLine(s, i, got == []);
            i < l.next <= |s| && HeadersFrom(s, i, got, max) == HeadersFrom(s, l.next, got + [l.value], max)
  {
    LineAdvances(s, i, got == []);
  }

  lemma HeadersStop(s: seq<byte>, i: nat, got: seq<Header>, max: nat)
    requires i < |s| && (s[i] == CR || s[i] == LF) && LineEnd(s, i).Ok?
    ensures HeadersFrom(s, i, got, max) == Fields(Accepted, LineEnd(s, i).next, got)
  {
  }

  // Start lines ---------------------------------------------------------------

  function Digit(b: byte): int { b - ZERO }

  /** "HTTP/1." and one digit, looked at only once a ninth byte is there. */
  function Version(s: seq<byte>, i: nat): Scan<nat>
    requires i <= |s|
  {
    if |s| - i < 9 then More
    else if s[i..i + 7] != HTTP1 || !IsDigit(s[i + 7]) then Bad
    else Ok(Digit(s[i + 7]), i + 8)
  }

  function StatusLine(s: seq<byte>): Scan<Status> {
    match Version(s, 0)
    case More => More
    case Bad => Bad
    case Ok(minor, _) =>
      if s[8] != SP then Bad
      else if |s| < 13 then More
      else if !IsDigit(s[9]) || !IsDigit(s[10]) || !IsDigit(s[11]) || s[12] != SP then Bad
      else
        var code := 100 * Digit(s[9]) + 10 * Digit(s[10]) + Digit(s[11]);
        match TokenToEol(s, 13)
        case Ok(msg, next) => Ok(Status(minor, code, msg), next)
        case Bad => Bad
        case More => More
  }

  function ParseResponse(s: seq<byte>, max: nat): Response {
    match StatusLine(s)
    case More => Response(Partial, 0, None, [])
    case Bad => Response(Rejected, 0, None, [])
    case Ok(st, next) =>
      StatusAdvances(s);
      var f := HeadersFrom(s, next, [], max);
      Response(f.verdict, if f.verdict.Accepted? then f.next else 0, Some(st), f.headers)
  }

  lemma StatusAdvances(s: seq<byte>)
    ensures StatusLine(s).Ok? ==> 13 < StatusLine(s).next <= |s|
  {
  }

  // What a call has written to its start-line outputs when it returns ------------------------------------

  datatype WrittenStatus = WrittenStatus(minor: int, code: int, msg: Option<Span>)

  const NO_STATUS: WrittenStatus := WrittenStatus(-1, 0, None)

  /** The status code as far as its digits go. */
  function CodeRead(s: seq<byte>): nat
    requires |s| >= 13
  {
    if !IsDigit(s[9]) then 0
    else if !IsDigit(s[10]) then 100 * Digit(s[9])
    else 100 * Digit(s[9]) + 10 * Digit(s[10]) + if IsDigit(s[11]) then Digit(s[11]) else 0
  }

  function StatusWritten(s: seq<byte>): WrittenStatus {
    WrittenStatus(if Version(s, 0).Ok? then Version(s, 0).value else -1,
                  if Version(s, 0).Ok? && s[8] == SP && |s| >= 13 then CodeRead(s) else 0,
                  if StatusLine(s).Ok? then Some(StatusLine(s).value.msg) else None)
  }

  /** An understood status line is written whole; on an incomplete one, what is written already is final. */
  lemma WrittenIsFinal(s: seq<byte>, t: seq<byte>)
    ensures StatusLine(s).Ok? ==>
              var st := StatusLine(s).value; StatusWritten(s) == WrittenStatus(st.minor, st.code, Some(st.msg))
    ensures StatusLine(s).More? ==>
              var w, w' := StatusWritten(s), StatusWritten(s + t);
              (w.minor == -1 || w.minor == w'.minor) && (w.code == 0 || w.code == w'.code) && w.msg == None
  {
    if |s| >= 9 {
      assert (s + t)[0..7] == s[0..7];
      assert forall k | 0 <= k < |s| :: (s + t)[k] == s[k];
    }
  }

  /** A token ended by a space; the space is not part of it. */
  function TokenToSpace(s: seq<byte>, i: nat): Scan<Span>
    requires i <= |s|
  {
    var k := First(s, i, IsSpaceOrCtl);
    if k == |s| then More else if s[k] == SP then Ok(Span(i, k), k + 1) else Bad
  }

  function SkipEmptyLine(s: seq<byte>): Scan<()> {
    if s == [] then More
    else if s[0] == CR || s[0] == LF then LineEnd(s, 0)
    else Ok((), 0)
  }

  function RequestLineFrom(s: seq<byte>, i: nat): Scan<RequestLine>
    requires i <= |s|
  {
    match TokenToSpace(s, i)
    case Bad => Bad
    case More => More
    case Ok(m, j) =>
      match TokenToSpace(s, j)
      case Bad => Bad
      case More => More
      case Ok(p, k) =>
        match Version(s, k)
        case Bad => Bad
        case More => More
        case Ok(minor, e) =>
          match LineEnd(s, e)
          case Bad => Bad
          case More => More
          case Ok(_, next) => Ok(RequestLine(m, p, minor), next)
  }

  function ParseRequest(s: seq<byte>, max: nat): Request {
    match SkipEmptyLine(s)
    case Bad => Request(Rejected, 0, None, [])
    case More => Request(Partial, 0, None, [])
    case Ok(_, i) =>
      match RequestLineFrom(s, i)
      case Bad => Request(Rejected, 0, None, [])
      case More => Request(Partial, 0, None, [])
      case Ok(line, next) =>
        var f := HeadersFrom(s, next, [], max);
        Request(f.verdict, if f.verdict.Accepted? then f.next else 0, Some(line), f.headers)
  }

  datatype WrittenLine = WrittenLine(verb: Option<Span>, path: Option<Span>, minor: int)

  const NO_LINE: WrittenLine := WrittenLine(None, None, -1)

  function LineWritten(s: seq<byte>): WrittenLine {
    if !SkipEmptyLine(s).Ok? then WrittenLine(None, None, -1)
    else
      match TokenToSpace(s, SkipEmptyLine(s).next)
      case Ok(verb, j) =>
        (match TokenToSpace(s, j)
         case Ok(path, k) =>
           WrittenLine(Some(verb), Some(path), if Version(s, k).Ok? then Version(s, k).value else -1)
         case _ => WrittenLine(Some(verb), None, -1))
      case _ => WrittenLine(None, None, -1)
  }

  /** An understood request line is written whole. */
  lemma LineWrittenWhole(s: seq<byte>)
    requires SkipEmptyLine(s).Ok? && RequestLineFrom(s, SkipEmptyLine(s).next).Ok?
    ensures var l := RequestLineFrom(s, SkipEmptyLine(s).next).value;
            LineWritten(s) == WrittenLine(Some(l.verb), Some(l.path), l.minor)
  {
  }

  // The "is it complete yet" scan ----------------------------------------------

  /** Scans from `i` for two line ends in a row, `seen` of which (0 or 1) just went by. */
  function BlankLine(s: seq<byte>, i: nat, seen: nat): Scan<()>
    requires i <= |s|
    decreases |s| - i
  {
    if i == |s| then More
    else if s[i] == CR || s[i] == LF then
      match LineEnd(s, i)
      case Ok(_, next) => if seen == 1 then Ok((), next) else BlankLine(s, next, 1)
      case Bad => Bad
      case More => More
    else BlankLine(s, i + 1, 0)
  }

  function ScanStart(lastLen: nat): nat { if lastLen < 3 then 0 else lastLen - 3 }

  /** The entry point: the scan runs first when part of the buffer was seen before. */
  function PhrParseResponse(s: seq<byte>, max: nat, lastLen: nat): Response
    requires lastLen <= |s|
  {
    if lastLen == 0 then ParseResponse(s, max)
    else
      match BlankLine(s, ScanStart(lastLen), 0)
      case Ok(_, _) => ParseResponse(s, max)
      case Bad => Response(Rejected, 0, None, [])
      case More => Response(Partial, 0, None, [])
  }

  function PhrStatusWritten(s: seq<byte>, lastLen: nat): WrittenStatus
    requires lastLen <= |s|
  {
    if lastLen == 0 || BlankLine(s, ScanStart(lastLen), 0).Ok? then StatusWritten(s) else WrittenStatus(-1, 0, None)
  }
}
