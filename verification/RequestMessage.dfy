/** The request the client prints, and the repository's own request parser reading it back. */
module RequestMessage {
  import opened Bytes
  import opened HeadSpec
  import opened HeadLanguage
  import HeadPrefix

  datatype HttpMethod = Get | Post | Head

  /** The parts of a parsed URL that reach the wire. */
  datatype Url = Url(host: seq<byte>, path: seq<byte>, query: seq<byte>)

  datatype Pair = Pair(key: seq<byte>, value: seq<byte>)

  /** "Host" and "Content-Length" */
  const HOST: seq<byte> := [72, 111, 115, 116]
  const CONTENT_LENGTH: seq<byte> := [67, 111, 110, 116, 101, 110, 116, 45, 76, 101, 110, 103, 116, 104]
  const QUESTION: byte := 63

  function MethodText(m: HttpMethod): (t: seq<byte>)
    ensures t != [] && forall i | 0 <= i < |t| :: 65 <= t[i] <= 90
  {
    match m
    case Get => [71, 69, 84]
    case Post => [80, 79, 83, 84]
    case Head => [72, 69, 65, 68]
  }

  /** The reader of verbs: the texts the source prints, and no other. */
  function MethodOf(t: seq<byte>): Option<HttpMethod> {
    if t == Ascii("GET") then Some(Get)
    else if t == Ascii("POST") then Some(Post)
    else if t == Ascii("HEAD") then Some(Head)
    else None
  }

  lemma MethodRoundTrip(m: HttpMethod)
    ensures MethodOf(MethodText(m)) == Some(m)
  {
    assert MethodText(Get) == Ascii("GET") && MethodText(Post) == Ascii("POST") && MethodText(Head) == Ascii("HEAD");
    assert Ascii("HEAD")[0] != Ascii("POST")[0];
  }

  /** The words of the message, spelled out. */
  lemma Words()
    ensures HOST == Ascii("Host") && CONTENT_LENGTH == Ascii("Content-Length") && [QUESTION] == Ascii("?")
    ensures HTTP1 + [ZERO] == Ascii("HTTP/1.0")
  {
  }

  // Decimal numbers ----------------------------------------------------------------

  function Decimal(n: nat): (t: seq<byte>)
    ensures t != [] && Every(IsDigit, t)
  {
    if n < 10 then [ZERO + n] else Decimal(n / 10) + [ZERO + n % 10]
  }

  function DecimalValue(t: seq<byte>): nat
    requires Every(IsDigit, t)
  {
    if t == [] then 0 else
      assert IsDigit(t[|t| - 1]);
      10 * DecimalValue(t[..|t| - 1]) + Digit(t[|t| - 1])
  }

  lemma {:induction false} DecimalRoundTrip(n: nat)
    ensures DecimalValue(Decimal(n)) == n
    decreases n
  {
    if n < 10 {
      assert Decimal(n)[..0] == [];
    } else {
      DecimalRoundTrip(n / 10);
      assert Decimal(n)[..|Decimal(n)| - 1] == Decimal(n / 10);
    }
  }

  // The printed request --------------------------------------------------------------

  function Target(u: Url): seq<byte> {
    if u.query == [] then u.path else u.path + [QUESTION] + u.query
  }

  function UserLines(headers: seq<Pair>): (ls: seq<Line>)
    ensures |ls| == |headers|
    ensures forall i | 0 <= i < |ls| :: ls[i] == Field(headers[i].key, [SP], headers[i].value, true)
  {
    seq(|headers|, i requires 0 <= i < |headers| => Field(headers[i].key, [SP], headers[i].value, true))
  }

  function LengthLines(m: HttpMethod, body: seq<byte>): seq<Line> {
    if body != [] || m == Post then [Field(CONTENT_LENGTH, [SP], Decimal(|body|), true)] else []
  }

  function Lines(u: Url, m: HttpMethod, headers: seq<Pair>, body: seq<byte>): seq<Line> {
    [Field(HOST, [], u.host, true)] + UserLines(headers) + LengthLines(m, body)
  }

  /** The request line: method, target and version 1.0. */
  function StartText(u: Url, m: HttpMethod): seq<byte> {
    MethodText(m) + [SP] + Target(u) + [SP] + HTTP1 + [ZERO] + CRLF
  }

  function HeadText(u: Url, m: HttpMethod, headers: seq<Pair>, body: seq<byte>): seq<byte> {
    StartText(u, m) + (LinesText(Lines(u, m, headers, body)) + CRLF)
  }

  lemma {:induction false} LinesTextAppend(ls: seq<Line>, ks: seq<Line>)
    ensures LinesText(ls + ks) == LinesText(ls) + LinesText(ks)
    decreases |ls|
  {
    if ls == [] {
      assert ls + ks == ks;
    } else {
      assert (ls + ks)[1..] == ls[1..] + ks;
      LinesTextAppend(ls[1..], ks);
    }
  }

  lemma AppendFive(x: seq<byte>, a: seq<byte>, b: seq<byte>, c: seq<byte>, d: seq<byte>, e: seq<byte>)
    ensures x + a + b + c + d + e == x + (a + b + c + d + e)
  {
  }

  /** Appending one more field line to `start` and the lines printed so far. */
  lemma AppendField(start: seq<byte>, ls: seq<Line>, k: seq<byte>, pad: seq<byte>, v: seq<byte>)
    ensures var l := Field(k, pad, v, true);
            start + LinesText(ls) + k + [COLON] + pad + v + CRLF == start + LinesText(ls + [l])
  {
    var l := Field(k, pad, v, true);
    assert LinesText([l]) == LineText(l) by { assert [l][1..] == []; }
    hide LinesText;
    LinesTextAppend(ls, [l]);
    AppendFive(start + LinesText(ls), k, [COLON], pad, v, CRLF);
    assert LineText(l) == k + [COLON] + pad + v + CRLF;
    hide LineText;
    assert start + LinesText(ls) + LineText(l) == start + (LinesText(ls) + LineText(l));
  }

  lemma HostFirst(start: seq<byte>, host: seq<byte>)
    ensures start + HOST + [COLON] + host + CRLF == start + LinesText([Field(HOST, [], host, true)])
  {
    var l := Field(HOST, [], host, true);
    assert LinesText([l]) == LineText(l) by { assert [l][1..] == []; }
    hide LinesText;
    AppendFive(start, HOST, [COLON], [], host, CRLF);
    assert start + HOST + [COLON] + [] == start + HOST + [COLON];
  }

  lemma LinesAre(u: Url, m: HttpMethod, headers: seq<Pair>, body: seq<byte>, ls: seq<Line>)
    requires ls == [Field(HOST, [], u.host, true)] + UserLines(headers)[..|headers|] + LengthLines(m, body)
    ensures ls == Lines(u, m, headers, body)
  {
    assert UserLines(headers)[..|headers|] == UserLines(headers);
  }

  /** The request line, appended piece by piece. */
  method BuildStart(u: Url, m: HttpMethod) returns (msg: seq<byte>)
    ensures msg == StartText(u, m)
  {
    hide MethodText;
    msg := MethodText(m) + [SP] + u.path;
    if u.query != [] {
      msg := msg + [QUESTION] + u.query;
    }
    assert msg == MethodText(m) + [SP] + Target(u);
    msg := msg + [SP] + HTTP1 + [ZERO] + CRLF;
  }

  /** `build_msg`: appends line by line, one loop over the user's headers. */
  method BuildMsg(u: Url, m: HttpMethod, headers: seq<Pair>, body: seq<byte>) returns (msg: seq<byte>)
    ensures msg == HeadText(u, m, headers, body) + body
  {
    hide StartText, MethodText, Decimal, LinesText, Lines;
    msg := BuildStart(u, m);
    ghost var start, host := StartText(u, m), Field(HOST, [], u.host, true);
    HostFirst(start, u.host);
    msg := msg + HOST + [COLON] + u.host + CRLF;
    var i := 0;
    ghost var ls := [host];
    while i < |headers|
      invariant 0 <= i <= |headers|
      invariant ls == [host] + UserLines(headers)[..i]
      invariant msg == start + LinesText(ls)
    {
      var k, v := headers[i].key, headers[i].value;
      AppendField(start, ls, k, [SP], v);
      msg := msg + k + [COLON] + [SP] + v + CRLF;
      ls := ls + [Field(k, [SP], v, true)];
      i := i + 1;
    }
    if body != [] || m == Post {
      AppendField(start, ls, CONTENT_LENGTH, [SP], Decimal(|body|));
      msg := msg + CONTENT_LENGTH + [COLON] + [SP] + Decimal(|body|) + CRLF;
      ls := ls + [Field(CONTENT_LENGTH, [SP], Decimal(|body|), true)];
    }
    LinesAre(u, m, headers, body, ls);
    assert start + LinesText(ls) + CRLF == start + (LinesText(ls) + CRLF);
    msg := msg + CRLF;
    if body != [] {
      msg := msg + body;
    }
  }

  // Reading it back ---------------------------------------------------------------------

  /** Bytes a caller must keep out of each part; checkable before the call. */
  predicate ValueOk(v: seq<byte>) { Never(IsCtl, v) && (v != [] ==> NotBlank(v[0])) }

  predicate Legal(u: Url, headers: seq<Pair>) {
    && Never(IsSpaceOrCtl, Target(u))
    && ValueOk(u.host)
    && forall i | 0 <= i < |headers| ::
         headers[i].key != [] && Every(IsTchar, headers[i].key) && ValueOk(headers[i].value)
  }

  lemma LinesLegal(u: Url, m: HttpMethod, headers: seq<Pair>, body: seq<byte>)
    requires Never(IsSpaceOrCtl, Target(u))
    ensures Legal(u, headers) <==> LinesOk(Lines(u, m, headers, body), true)
  {
    var ls := Lines(u, m, headers, body);
    var us := UserLines(headers);
    if LinesOk(ls, true) {
      assert ls[0] == Field(HOST, [], u.host, true);
      forall i | 0 <= i < |headers|
        ensures headers[i].key != [] && Every(IsTchar, headers[i].key) && ValueOk(headers[i].value)
      {
        assert ls[i + 1] == us[i];
        assert LineOk(ls[i + 1], false);
      }
    }
    if Legal(u, headers) {
      forall i | 0 <= i < |ls| ensures LineOk(ls[i], i == 0) {
        if 0 < i <= |us| {
          assert ls[i] == us[i - 1];
        } else if i > |us| {
          var d := Decimal(|body|);
          assert ls[i] == Field(CONTENT_LENGTH, [SP], d, true);
          assert forall j | 0 <= j < |d| :: IsDigit(d[j]);
        }
      }
    }
  }

  /** What the parser reports when it has understood the request as the caller meant it. */
  function Expected(u: Url, m: HttpMethod, headers: seq<Pair>, body: seq<byte>): Request {
    var p := |MethodText(m)| + 1;
    Request(Accepted, |HeadText(u, m, headers, body)|,
            Some(RequestLine(Span(0, p - 1), Span(p, p + |Target(u)|), 0)),
            HeadersAt(|StartText(u, m)|, Lines(u, m, headers, body)))
  }

  lemma StartParts(s: seq<byte>, u: Url, m: HttpMethod)
    requires At(s, 0, StartText(u, m))
    ensures var p := |MethodText(m)| + 1; var v := p + |Target(u)| + 1;
            && At(s, 0, MethodText(m)) && At(s, p - 1, [SP]) && At(s, p, Target(u)) && At(s, v - 1, [SP])
            && At(s, v, HTTP1) && At(s, v + 7, [ZERO]) && At(s, v + 8, CRLF) && v + 10 == |StartText(u, m)|
  {
    hide At, Target, MethodText;
    var mt, t := MethodText(m), Target(u);
    AtParts(s, 0, mt + [SP] + t + [SP] + HTTP1 + [ZERO], CRLF);
    AtParts(s, 0, mt + [SP] + t + [SP] + HTTP1, [ZERO]);
    AtParts(s, 0, mt + [SP] + t + [SP], HTTP1);
    AtParts(s, 0, mt + [SP] + t, [SP]);
    AtParts(s, 0, mt + [SP], t);
    AtParts(s, 0, mt, [SP]);
  }

  lemma SpaceEnds(s: seq<byte>, i: nat, x: seq<byte>)
    requires At(s, i, x) && At(s, i + |x|, [SP])
    ensures TokenToSpace(s, i) == Ok(Span(i, i + |x|), i + |x| + 1) <==> Never(IsSpaceOrCtl, x)
  {
    AtByte(s, i + |x|, [SP], 0);
    assert forall j | i <= j < i + |x| :: s[j] == x[j - i];
    if Never(IsSpaceOrCtl, x) { FirstIs(s, i, x, IsSpaceOrCtl); }
    var k := First(s, i, IsSpaceOrCtl);
    if k == i + |x| {
      assert forall j | 0 <= j < |x| :: x[j] == s[i + j];
    }
  }

  lemma VersionReads(s: seq<byte>, v: nat)
    requires At(s, v, HTTP1) && At(s, v + 7, [ZERO]) && At(s, v + 8, CRLF)
    ensures v <= |s| && Version(s, v) == Ok(0, v + 8)
  {
    AtByte(s, v + 7, [ZERO], 0);
  }

  lemma StartReads(s: seq<byte>, u: Url, m: HttpMethod)
    requires At(s, 0, StartText(u, m))
    ensures SkipEmptyLine(s) == Ok((), 0)
    ensures var p := |MethodText(m)| + 1;
            var line := RequestLine(Span(0, p - 1), Span(p, p + |Target(u)|), 0);
            if Never(IsSpaceOrCtl, Target(u)) then RequestLineFrom(s, 0) == Ok(line, |StartText(u, m)|)
            else RequestLineFrom(s, 0).Ok? ==> RequestLineFrom(s, 0).value.path != line.path
  {
    hide At, First, TokenToSpace, StartText, Target, Version, LineEnd;
    StartParts(s, u, m);
    var mt, t := MethodText(m), Target(u);
    var p := |mt| + 1;
    var v := p + |t| + 1;
    AtByte(s, 0, mt, 0);
    VersionReads(s, v);
    EolParses(s, v + 8, true);
    SpaceEnds(s, 0, mt);
    assert TokenToSpace(s, 0) == Ok(Span(0, |mt|), p);
    hide MethodText;
    SpaceEnds(s, p, t);
    SpaceNext(s, p);
  }

  lemma SpaceNext(s: seq<byte>, i: nat)
    requires i <= |s|
    ensures TokenToSpace(s, i).Ok? ==>
              TokenToSpace(s, i) == Ok(TokenToSpace(s, i).value, TokenToSpace(s, i).value.end + 1)
              && TokenToSpace(s, i).value.start == i
  {
  }

  /** How the spans of a named header were found. */
  lemma NamedLine(s: seq<byte>, i: nat, first: bool)
    requires i < |s| && HeaderLine(s, i, first).Ok? && HeaderLine(s, i, first).value.name.Some?
    ensures var r := HeaderLine(s, i, first); var h := r.value;
            && h.name == Some(Span(i, First(s, i, NotTchar))) && i < h.name.value.end < |s|
            && h.value.start == First(s, h.name.value.end + 1, NotBlank) < |s|
            && h.value.end == First(s, h.value.start, IsCtl) < |s|
            && LineEnd(s, h.value.end) == Ok((), r.next)
  {
    hide First, IsTchar;
  }

  /** A CRLF field line is reported as printed only if it is well formed. */
  lemma LineReported(s: seq<byte>, i: nat, l: Line, first: bool)
    requires l.Field? && l.crlf && At(s, i, LineText(l)) && i < |s|
    requires HeaderLine(s, i, first).Ok? && HeaderLine(s, i, first).value == HeaderAt(i, l)
    ensures LineOk(l, first) && HeaderLine(s, i, first).next == i + |LineText(l)|
  {
    hide HeaderLine, LineText, IsTchar, At, First, LineEnd;
    NamedLine(s, i, first);
    FieldParts(s, i, l);
    var k := i + |l.name|;
    var v := k + 1 + |l.pad|;
    var e := v + |l.value|;
    EolParses(s, e, true);
    Reads(s, i, l.name, NotTchar);
    Reads(s, k + 1, l.pad, NotBlank);
    Reads(s, v, l.value, IsCtl);
    if l.value != [] { AtByte(s, v, l.value, 0); }
  }

  lemma Reads(s: seq<byte>, i: nat, x: seq<byte>, p: byte -> bool)
    requires At(s, i, x) && First(s, i, p) == i + |x|
    ensures Never(p, x)
  {
    assert forall j | 0 <= j < |x| :: x[j] == s[i + j];
  }

  predicate AllFields(ls: seq<Line>) { forall i | 0 <= i < |ls| :: ls[i].Field? && ls[i].crlf }

  lemma CountsOneMore(s: seq<byte>, i: nat, got: seq<Header>, max: nat)
    requires i <= |s| && |HeadersFrom(s, i, got, max).headers| > |got|
    ensures i < |s| && HeadPrefix.NotEol(s[i]) && |got| != max && HeaderLine(s, i, got == []).Ok?
  {
    hide HeaderLine;
  }

  lemma {:induction false} LinesReported(s: seq<byte>, i: nat, got: seq<Header>, ls: seq<Line>, max: nat)
    requires AllFields(ls) && At(s, i, LinesText(ls) + Eol(true)) && |got| <= max && i <= |s|
    requires HeadersFrom(s, i, got, max).headers == got + HeadersAt(i, ls)
    ensures LinesOk(ls, got == []) && |got| + |ls| <= max
    decreases |ls|
  {
    hide HeadersFrom, HeaderLine, LineOk, At, LineText, HeaderAt;
    if ls != [] {
      var h, l := HeaderAt(i, ls[0]), ls[0];
      CountsOneMore(s, i, got, max);
      LinesTextCons(ls, true);
      AtParts(s, i, LineText(l), LinesText(ls[1..]) + Eol(true));
      hide LinesText;
      HeadersStep(s, i, got, max);
      var r := HeaderLine(s, i, got == []);
      HeadPrefix.HeadersGrow(s, r.next, got + [r.value], max);
      assert (got + HeadersAt(i, ls))[|got|] == h && (got + [r.value])[|got|] == r.value;
      LineReported(s, i, l, got == []);
      assert got + [h] + HeadersAt(r.next, ls[1..]) == got + HeadersAt(i, ls);
      LinesReported(s, r.next, got + [h], ls[1..], max);
      assert forall j | 1 <= j < |ls| :: ls[j] == ls[1..][j - 1];
    }
  }

  lemma HeadParts(u: Url, m: HttpMethod, headers: seq<Pair>, body: seq<byte>)
    ensures var s := HeadText(u, m, headers, body) + body;
            At(s, 0, StartText(u, m)) && At(s, |StartText(u, m)|, LinesText(Lines(u, m, headers, body)) + Eol(true))
  {
    hide StartText, Lines, LinesText;
    var s := HeadText(u, m, headers, body) + body;
    AtParts(s, 0, StartText(u, m), LinesText(Lines(u, m, headers, body)) + Eol(true));
  }

  /** The parser recovers the request as printed exactly when its parts hold only legal bytes and fit. */
  lemma RequestRoundTrip(u: Url, m: HttpMethod, headers: seq<Pair>, body: seq<byte>, max: nat)
    ensures ParseRequest(HeadText(u, m, headers, body) + body, max) == Expected(u, m, headers, body) <==>
            Legal(u, headers) && |Lines(u, m, headers, body)| <= max
  {
    hide At, StartText, LinesText, Target, MethodText, HeadersFrom, RequestLineFrom, SkipEmptyLine;
    hide LineOk, LineText, HeadersAt;
    var s := HeadText(u, m, headers, body) + body;
    var ls := Lines(u, m, headers, body);
    assert AllFields(ls);
    hide Lines;
    var i := |StartText(u, m)|;
    HeadParts(u, m, headers, body);
    StartReads(s, u, m);
    if Never(IsSpaceOrCtl, Target(u)) {
      LinesLegal(u, m, headers, body);
      if LinesOk(ls, true) && |ls| <= max {
        LinesParse(s, i, [], ls, true, max);
        assert [] + HeadersAt(i, ls) == HeadersAt(i, ls);
      } else if HeadersFrom(s, i, [], max).headers == HeadersAt(i, ls) {
        assert [] + HeadersAt(i, ls) == HeadersAt(i, ls);
        LinesReported(s, i, [], ls, max);
      }
    }
  }

  /** What the reported spans say: method, target, every header in printed order, then the body. */
  lemma RequestSays(u: Url, m: HttpMethod, headers: seq<Pair>, body: seq<byte>)
    ensures var s := HeadText(u, m, headers, body) + body;
            var r := Expected(u, m, headers, body);
            && s[r.consumed..] == body
            && SpanIn(s, r.line.value.verb) && Text(s, r.line.value.verb) == MethodText(m)
            && SpanIn(s, r.line.value.path) && Text(s, r.line.value.path) == Target(u)
            && |r.headers| == |Lines(u, m, headers, body)|
            && forall i | 0 <= i < |r.headers| :: Says(s, r.headers[i], Lines(u, m, headers, body)[i])
  {
    hide LinesText, Lines, LineText, HeadersAt, MethodText, Target, Says;
    var s := HeadText(u, m, headers, body) + body;
    HeadParts(u, m, headers, body);
    StartParts(s, u, m);
    LinesSay(s, |StartText(u, m)|, Lines(u, m, headers, body), true);
  }

  /** The header's spans read `name` and `value`. */
  predicate HeaderReads(s: seq<byte>, h: Header, name: seq<byte>, value: seq<byte>) {
    && h.name.Some? && SpanIn(s, h.name.value) && Text(s, h.name.value) == name
    && SpanIn(s, h.value) && Text(s, h.value) == value
  }

  /** What a server makes of a request it has recovered from `s`. */
  predicate Means(s: seq<byte>, r: Request, u: Url, m: HttpMethod, headers: seq<Pair>, body: seq<byte>) {
    var n := |headers| + 1;
    && r.consumed <= |s| && s[r.consumed..] == body && r.line.Some? && r.line.value.minor == 0
    && SpanIn(s, r.line.value.verb) && MethodOf(Text(s, r.line.value.verb)) == Some(m)
    && SpanIn(s, r.line.value.path)
    && Text(s, r.line.value.path) == u.path + (if u.query == [] then [] else Ascii("?") + u.query)
    && |r.headers| == n + (if body != [] || m == Post then 1 else 0)
    && HeaderReads(s, r.headers[0], Ascii("Host"), u.host)
    && (forall i | 0 <= i < |headers| :: HeaderReads(s, r.headers[i + 1], headers[i].key, headers[i].value))
    && (|r.headers| > n ==> HeaderReads(s, r.headers[n], Ascii("Content-Length"), Decimal(|body|)))
  }

  /**
    * The recovered request is the caller's: method, path and query, the host, the caller's headers in order, and
    * the length of the body exactly when there is one or the method is POST.
    */
  lemma RequestMeans(u: Url, m: HttpMethod, headers: seq<Pair>, body: seq<byte>)
    ensures Means(HeadText(u, m, headers, body) + body, Expected(u, m, headers, body), u, m, headers, body)
  {
    hide HeadText, StartText, MethodText, MethodOf, Says, Decimal, HeadersAt, HeaderReads, Text, Lines;
    RequestSays(u, m, headers, body);
    MethodRoundTrip(m);
    Words();
    var s := HeadText(u, m, headers, body) + body;
    var hs, ls := Expected(u, m, headers, body).headers, Lines(u, m, headers, body);
    LinesOneByOne(u, m, headers, body);
    FieldReads(s, hs[0], ls[0]);
    forall i | 0 <= i < |headers| ensures HeaderReads(s, hs[i + 1], headers[i].key, headers[i].value) {
      assert ls[i + 1] == Field(headers[i].key, [SP], headers[i].value, true);
      FieldReads(s, hs[i + 1], ls[i + 1]);
    }
    if |ls| > |headers| + 1 {
      FieldReads(s, hs[|headers| + 1], ls[|headers| + 1]);
    }
    assert u.path + [QUESTION] + u.query == u.path + ([QUESTION] + u.query);
  }

  lemma FieldReads(s: seq<byte>, h: Header, l: Line)
    requires l.Field? && Says(s, h, l)
    ensures HeaderReads(s, h, l.name, l.value)
  {
  }

  lemma LinesOneByOne(u: Url, m: HttpMethod, headers: seq<Pair>, body: seq<byte>)
    ensures var ls := Lines(u, m, headers, body);
            && |ls| == |headers| + 1 + (if body != [] || m == Post then 1 else 0)
            && ls[0] == Field(HOST, [], u.host, true)
            && (forall i | 0 <= i < |headers| :: ls[i + 1] == Field(headers[i].key, [SP], headers[i].value, true))
            && (|ls| > |headers| + 1 ==> ls[|headers| + 1] == Field(CONTENT_LENGTH, [SP], Decimal(|body|), true))
  {
    hide Decimal, UserLines, LengthLines;
    var user, last := UserLines(headers), LengthLines(m, body);
    LengthLinesAre(m, body);
    ThreeParts([Field(HOST, [], u.host, true)], user, last);
  }

  lemma LengthLinesAre(m: HttpMethod, body: seq<byte>)
    ensures if body != [] || m == Post
            then LengthLines(m, body) == [Field(CONTENT_LENGTH, [SP], Decimal(|body|), true)]
            else LengthLines(m, body) == []
  {
    hide Decimal;
  }

  lemma ThreeParts(a: seq<Line>, b: seq<Line>, c: seq<Line>)
    requires |a| == 1
    ensures var s := a + b + c;
            && |s| == 1 + |b| + |c| && s[0] == a[0] && (forall i | 0 <= i < |b| :: s[i + 1] == b[i])
            && (c != [] ==> s[1 + |b|] == c[0])
  {
  }
}
