/** The language of heads the parser accepts, and what it reports about their parts. */
module HeadLanguage {
  import opened Bytes
  import opened HeadSpec
  import HeadPrefix

  /** A header line as sent; each line may end in CRLF or in a bare LF. */
  datatype Line =
    | Field(name: seq<byte>, pad: seq<byte>, value: seq<byte>, crlf: bool)
    | Fold(value: seq<byte>, crlf: bool)

  datatype Message = Message(minor: nat, code: nat, msg: seq<byte>, msgCrlf: bool, lines: seq<Line>, endCrlf: bool)

  predicate LineOk(l: Line, first: bool) {
    && Never(IsCtl, l.value)
    && match l
       case Field(name, pad, value, _) =>
         name != [] && Every(IsTchar, name) && Every(IsBlank, pad) && (value != [] ==> NotBlank(value[0]))
       case Fold(value, _) => !first && value != [] && IsBlank(value[0])
  }

  predicate LinesOk(ls: seq<Line>, first: bool) {
    forall i | 0 <= i < |ls| :: LineOk(ls[i], first && i == 0)
  }

  predicate MessageOk(m: Message) {
    m.minor < 10 && m.code < 1000 && Never(IsCtl, m.msg) && LinesOk(m.lines, true)
  }

  function Eol(crlf: bool): seq<byte> { if crlf then CRLF else [LF] }

  function LineText(l: Line): seq<byte> {
    match l
    case Field(name, pad, value, crlf) => name + [COLON] + pad + value + Eol(crlf)
    case Fold(value, crlf) => value + Eol(crlf)
  }

  function LinesText(ls: seq<Line>): seq<byte> {
    if ls == [] then [] else LineText(ls[0]) + LinesText(ls[1..])
  }

  function StatusPrefix(minor: nat, code: nat): (t: seq<byte>)
    requires minor < 10 && code < 1000
    ensures |t| == 13
  {
    HTTP1 + [ZERO + minor, SP, ZERO + code / 100, ZERO + code / 10 % 10, ZERO + code % 10, SP]
  }

  function StatusText(m: Message): seq<byte>
    requires m.minor < 10 && m.code < 1000
  {
    StatusPrefix(m.minor, m.code) + m.msg + Eol(m.msgCrlf)
  }

  function MessageText(m: Message): seq<byte>
    requires m.minor < 10 && m.code < 1000
  {
    StatusText(m) + LinesText(m.lines) + Eol(m.endCrlf)
  }

  // Where the parser puts the parts ------------------------------------------------

  function HeaderAt(i: nat, l: Line): Header {
    match l
    case Field(name, pad, value, _) =>
      var v := i + |name| + 1 + |pad|;
      Header(Some(Span(i, i + |name|)), Span(v, v + |value|))
    case Fold(value, _) => Header(None, Span(i, i + |value|))
  }

  function HeadersAt(i: nat, ls: seq<Line>): (hs: seq<Header>)
    ensures |hs| == |ls|
    decreases |ls|
  {
    if ls == [] then [] else [HeaderAt(i, ls[0])] + HeadersAt(i + |LineText(ls[0])|, ls[1..])
  }

  /** The header's spans cut the line's own name and value out of `s`. */
  predicate Says(s: seq<byte>, h: Header, l: Line) {
    && SpanIn(s, h.value) && Text(s, h.value) == l.value
    && match l
       case Field(name, _, _, _) => h.name.Some? && SpanIn(s, h.name.value) && Text(s, h.name.value) == name
       case Fold(_, _) => h.name.None?
  }

  lemma AtParts(s: seq<byte>, i: nat, x: seq<byte>, y: seq<byte>)
    ensures At(s, i, x + y) <==> At(s, i, x) && At(s, i + |x|, y)
  {
    if At(s, i, x + y) {
      assert x == (x + y)[..|x|] == s[i..i + |x|];
      assert y == (x + y)[|x|..];
    }
    if At(s, i, x) && At(s, i + |x|, y) {
      assert s[i..i + |x + y|] == s[i..i + |x|] + s[i + |x|..i + |x| + |y|];
    }
  }

  predicate FieldAt(s: seq<byte>, i: nat, l: Line)
    requires l.Field?
  {
    var k := i + |l.name|;
    var v := k + 1 + |l.pad|;
    && At(s, i, l.name) && At(s, k, [COLON]) && At(s, k + 1, l.pad) && At(s, v, l.value)
    && At(s, v + |l.value|, Eol(l.crlf))
  }

  lemma FieldParts(s: seq<byte>, i: nat, l: Line)
    requires l.Field?
    ensures At(s, i, LineText(l)) <==> FieldAt(s, i, l)
    ensures |LineText(l)| == |l.name| + 1 + |l.pad| + |l.value| + |Eol(l.crlf)|
  {
    hide At, Eol;
    AtParts(s, i, l.name + [COLON] + l.pad + l.value, Eol(l.crlf));
    AtParts(s, i, l.name + [COLON] + l.pad, l.value);
    AtParts(s, i, l.name + [COLON], l.pad);
    AtParts(s, i, l.name, [COLON]);
  }

  lemma LineSays(s: seq<byte>, i: nat, l: Line)
    requires At(s, i, LineText(l))
    ensures Says(s, HeaderAt(i, l), l)
  {
    if l.Field? { FieldParts(s, i, l); } else { AtParts(s, i, l.value, Eol(l.crlf)); }
  }

  // Printing, then parsing -----------------------------------------------------------

  lemma FirstIs(s: seq<byte>, i: nat, x: seq<byte>, p: byte -> bool)
    requires At(s, i, x) && Never(p, x) && i + |x| < |s| && p(s[i + |x|])
    ensures First(s, i, p) == i + |x|
  {
    assert forall j | i <= j < i + |x| :: s[j] == x[j - i];
  }

  lemma EolParses(s: seq<byte>, i: nat, crlf: bool)
    requires At(s, i, Eol(crlf))
    ensures i < |s| && IsCtl(s[i]) && LineEnd(s, i) == Ok((), i + |Eol(crlf)|)
  {
    assert forall j | 0 <= j < |Eol(crlf)| :: s[i + j] == Eol(crlf)[j];
  }

  lemma TokenParses(s: seq<byte>, i: nat, x: seq<byte>, crlf: bool)
    requires At(s, i, x) && At(s, i + |x|, Eol(crlf)) && Never(IsCtl, x)
    ensures TokenToEol(s, i) == Ok(Span(i, i + |x|), i + |x| + |Eol(crlf)|)
  {
    EolParses(s, i + |x|, crlf);
    FirstIs(s, i, x, IsCtl);
  }

  lemma ValueParses(s: seq<byte>, i: nat, pad: seq<byte>, x: seq<byte>, crlf: bool)
    requires At(s, i, pad) && At(s, i + |pad|, x) && At(s, i + |pad| + |x|, Eol(crlf))
    requires Every(IsBlank, pad) && Never(IsCtl, x) && (x != [] ==> NotBlank(x[0]))
    ensures var v := i + |pad|; FieldValue(s, i) == Ok(Span(v, v + |x|), v + |x| + |Eol(crlf)|)
  {
    var v := i + |pad|;
    EolParses(s, v + |x|, crlf);
    if x != [] { assert s[v] == x[0]; }
    FirstIs(s, i, pad, NotBlank);
    TokenParses(s, v, x, crlf);
  }

  lemma AtByte(s: seq<byte>, i: nat, x: seq<byte>, j: nat)
    requires At(s, i, x) && j < |x|
    ensures i + j < |s| && s[i + j] == x[j]
  {
    assert s[i..i + |x|][j] == s[i + j];
  }

  lemma FoldParses(s: seq<byte>, i: nat, l: Line)
    requires l.Fold? && At(s, i, LineText(l)) && LineOk(l, false)
    ensures i < |s| && HeadPrefix.NotEol(s[i])
    ensures HeaderLine(s, i, false) == Ok(HeaderAt(i, l), i + |LineText(l)|)
  {
    AtParts(s, i, l.value, Eol(l.crlf));
    hide First, TokenToEol, At;
    AtByte(s, i, l.value, 0);
    TokenParses(s, i, l.value, l.crlf);
  }

  lemma FieldParses(s: seq<byte>, i: nat, l: Line, first: bool)
    requires l.Field? && At(s, i, LineText(l)) && LineOk(l, first)
    ensures i < |s| && HeadPrefix.NotEol(s[i])
    ensures HeaderLine(s, i, first) == Ok(HeaderAt(i, l), i + |LineText(l)|)
  {
    hide First, FieldValue, At;
    FieldParts(s, i, l);
    var k := i + |l.name|;
    AtByte(s, i, l.name, 0);
    AtByte(s, k, [COLON], 0);
    FirstIs(s, i, l.name, NotTchar);
    ValueParses(s, k + 1, l.pad, l.value, l.crlf);
  }

  lemma LineParses(s: seq<byte>, i: nat, l: Line, first: bool)
    requires At(s, i, LineText(l)) && LineOk(l, first)
    ensures i < |s| && HeadPrefix.NotEol(s[i])
    ensures HeaderLine(s, i, first) == Ok(HeaderAt(i, l), i + |LineText(l)|)
  {
    hide HeaderLine, At, LineText, HeaderAt;
    if l.Fold? { FoldParses(s, i, l); } else { FieldParses(s, i, l, first); }
  }

  lemma LinesTextCons(ls: seq<Line>, crlf: bool)
    requires ls != []
    ensures LinesText(ls) + Eol(crlf) == LineText(ls[0]) + (LinesText(ls[1..]) + Eol(crlf))
  {
  }

  lemma RestOk(ls: seq<Line>, first: bool)
    requires ls != [] && LinesOk(ls, first)
    ensures LineOk(ls[0], first) && LinesOk(ls[1..], false)
  {
    assert forall j | 0 <= j < |ls| - 1 :: ls[1..][j] == ls[j + 1];
  }

  lemma {:induction false} LinesParse(s: seq<byte>, i: nat, got: seq<Header>, ls: seq<Line>, crlf: bool, max: nat)
    requires At(s, i, LinesText(ls) + Eol(crlf)) && LinesOk(ls, got == []) && |got| + |ls| <= max
    ensures i <= |s|
    ensures HeadersFrom(s, i, got, max) ==
            Fields(Accepted, i + |LinesText(ls) + Eol(crlf)|, got + HeadersAt(i, ls))
    decreases |ls|
  {
    hide HeadersFrom, HeaderLine, LineOk, LinesOk, At, LineText, HeaderAt, LineEnd;
    if ls == [] {
      assert LinesText(ls) + Eol(crlf) == Eol(crlf);
      EolParses(s, i, crlf);
      AtByte(s, i, Eol(crlf), 0);
      HeadersStop(s, i, got, max);
      assert got + [] == got;
    } else {
      RestOk(ls, got == []);
      LinesTextCons(ls, crlf);
      AtParts(s, i, LineText(ls[0]), LinesText(ls[1..]) + Eol(crlf));
      hide LinesText, Eol;
      LineParses(s, i, ls[0], got == []);
      HeadersStep(s, i, got, max);
      var h, j := HeaderAt(i, ls[0]), i + |LineText(ls[0])|;
      LinesParse(s, j, got + [h], ls[1..], crlf, max);
      assert got + [h] + HeadersAt(j, ls[1..]) == got + HeadersAt(i, ls);
    }
  }

  lemma {:induction false} LinesSay(s: seq<byte>, i: nat, ls: seq<Line>, crlf: bool)
    requires At(s, i, LinesText(ls) + Eol(crlf))
    ensures forall j | 0 <= j < |ls| :: Says(s, HeadersAt(i, ls)[j], ls[j])
    decreases |ls|
  {
    hide At, LineText, LinesText, Says, HeaderAt, Eol;
    if ls != [] {
      LinesTextCons(ls, crlf);
      AtParts(s, i, LineText(ls[0]), LinesText(ls[1..]) + Eol(crlf));
      LineSays(s, i, ls[0]);
      var i' := i + |LineText(ls[0])|;
      LinesSay(s, i', ls[1..], crlf);
      forall j | 0 < j < |ls| ensures Says(s, HeadersAt(i, ls)[j], ls[j]) {
        assert HeadersAt(i, ls)[j] == HeadersAt(i', ls[1..])[j - 1] && ls[j] == ls[1..][j - 1];
      }
    }
  }

  lemma StatusParses(s: seq<byte>, m: Message)
    requires MessageOk(m) && At(s, 0, StatusText(m))
    ensures StatusLine(s) == Ok(Status(m.minor, m.code, Span(13, 13 + |m.msg|)), |StatusText(m)|)
    ensures SpanIn(s, Span(13, 13 + |m.msg|)) && Text(s, Span(13, 13 + |m.msg|)) == m.msg
  {
    hide Eol, TokenToEol;
    var t := StatusPrefix(m.minor, m.code);
    AtParts(s, 0, t + m.msg, Eol(m.msgCrlf));
    AtParts(s, 0, t, m.msg);
    assert forall j | 0 <= j < 13 :: s[j] == t[j];
    assert s[0..7] == HTTP1;
    TokenParses(s, 13, m.msg, m.msgCrlf);
  }

  /** Parsing a printed head gives back every part of it, whatever bytes follow. */
  lemma ResponseRoundTrip(m: Message, suffix: seq<byte>, max: nat)
    requires MessageOk(m) && |m.lines| <= max
    ensures var s := MessageText(m) + suffix;
            var st := Status(m.minor, m.code, Span(13, 13 + |m.msg|));
            var hs := HeadersAt(|StatusText(m)|, m.lines);
            && ParseResponse(s, max) == Response(Accepted, |MessageText(m)|, Some(st), hs)
            && SpanIn(s, st.msg) && Text(s, st.msg) == m.msg
            && forall j | 0 <= j < |m.lines| :: Says(s, hs[j], m.lines[j])
  {
    hide StatusLine, HeadersFrom, StatusText, LineOk;
    var s := MessageText(m) + suffix;
    var rest := LinesText(m.lines) + Eol(m.endCrlf);
    assert MessageText(m) == StatusText(m) + rest;
    AtParts(s, 0, StatusText(m), rest);
    assert At(s, 0, MessageText(m));
    StatusParses(s, m);
    LinesParse(s, |StatusText(m)|, [], m.lines, m.endCrlf, max);
    LinesSay(s, |StatusText(m)|, m.lines, m.endCrlf);
    assert [] + HeadersAt(|StatusText(m)|, m.lines) == HeadersAt(|StatusText(m)|, m.lines);
  }

  // Parsing, then printing -----------------------------------------------------------

  lemma TokenSound(s: seq<byte>, i: nat) returns (crlf: bool)
    requires i <= |s| && TokenToEol(s, i).Ok?
    ensures var r := TokenToEol(s, i);
            && r.value.start == i <= r.value.end <= |s| && Never(IsCtl, s[i..r.value.end])
            && At(s, r.value.end, Eol(crlf)) && r.next == r.value.end + |Eol(crlf)|
  {
    hide First;
    var k := First(s, i, IsCtl);
    crlf := s[k] == CR;
    EolStands(s, k);
  }

  lemma EolStands(s: seq<byte>, k: nat)
    requires k < |s| && LineEnd(s, k).Ok?
    ensures At(s, k, Eol(s[k] == CR)) && LineEnd(s, k).next == k + |Eol(s[k] == CR)|
  {
  }

  lemma SliceAt(s: seq<byte>, i: nat, k: nat)
    requires i <= k <= |s|
    ensures At(s, i, s[i..k]) && |s[i..k]| == k - i
  {
  }

  lemma StandsAt(s: seq<byte>, k: nat)
    requires k < |s|
    ensures At(s, k, [s[k]])
  {
  }

  lemma FieldText(s: seq<byte>, i: nat, k: nat, v: nat, e: nat, l: Line)
    requires i <= k < v <= e <= |s| && s[k] == COLON && l.Field? && At(s, e, Eol(l.crlf))
    requires l.name == s[i..k] && l.pad == s[k + 1..v] && l.value == s[v..e]
    ensures At(s, i, LineText(l)) && i + |LineText(l)| == e + |Eol(l.crlf)|
  {
    hide At, Eol, LineText;
    SliceAt(s, i, k);
    StandsAt(s, k);
    SliceAt(s, k + 1, v);
    SliceAt(s, v, e);
    FieldParts(s, i, l);
  }

  lemma FieldSound(s: seq<byte>, i: nat) returns (l: Line)
    requires i < |s| && HeaderLine(s, i, true).Ok?
    ensures l.Field? && LineOk(l, true) && At(s, i, LineText(l))
    ensures HeaderLine(s, i, true).next == i + |LineText(l)|
  {
    hide TokenToEol, IsTchar, At, LineText;
    var k := First(s, i, NotTchar);
    var v := First(s, k + 1, NotBlank);
    var crlf := TokenSound(s, v);
    var e := TokenToEol(s, v).value.end;
    l := Field(s[i..k], s[k + 1..v], s[v..e], crlf);
    FieldText(s, i, k, v, e, l);
  }

  lemma LineSound(s: seq<byte>, i: nat, first: bool) returns (l: Line)
    requires i < |s| && HeadPrefix.NotEol(s[i]) && HeaderLine(s, i, first).Ok?
    ensures LineOk(l, first) && At(s, i, LineText(l))
    ensures HeaderLine(s, i, first).next == i + |LineText(l)|
  {
    if !first && IsBlank(s[i]) {
      var crlf := TokenSound(s, i);
      hide TokenToEol, First, Eol;
      l := Fold(s[i..TokenToEol(s, i).value.end], crlf);
      AtParts(s, i, l.value, Eol(crlf));
    } else {
      hide TokenToEol, First, FieldValue, Eol, LineText, At;
      l := FieldSound(s, i);
    }
  }

  lemma {:induction false} HeadersSound(s: seq<byte>, i: nat, got: seq<Header>, max: nat)
    returns (ls: seq<Line>, crlf: bool)
    requires i <= |s| && |got| <= max && HeadersFrom(s, i, got, max).verdict.Accepted?
    ensures LinesOk(ls, got == []) && |got| + |ls| <= max
    ensures At(s, i, LinesText(ls) + Eol(crlf))
    ensures HeadersFrom(s, i, got, max).next == i + |LinesText(ls) + Eol(crlf)|
    decreases |s| - i
  {
    if s[i] == CR || s[i] == LF {
      ls, crlf := [], s[i] == CR;
      HeadersStop(s, i, got, max);
      EolStands(s, i);
      assert LinesText(ls) + Eol(crlf) == Eol(crlf);
    } else {
      assert |got| != max && HeaderLine(s, i, got == []).Ok?;
      hide HeadersFrom, HeaderLine, LineOk, LinesOk, At, LineText, LinesText, Eol;
      HeadersStep(s, i, got, max);
      var l := LineSound(s, i, got == []);
      var h := HeaderLine(s, i, got == []);
      var ls';
      ls', crlf := HeadersSound(s, h.next, got + [h.value], max);
      ls := ConsLine(s, i, l, ls', crlf, got == []);
    }
  }

  lemma ConsLine(s: seq<byte>, i: nat, l: Line, ls': seq<Line>, crlf: bool, first: bool) returns (ls: seq<Line>)
    requires LineOk(l, first) && LinesOk(ls', false)
    requires At(s, i, LineText(l)) && At(s, i + |LineText(l)|, LinesText(ls') + Eol(crlf))
    ensures ls == [l] + ls' && LinesOk(ls, first)
    ensures At(s, i, LinesText(ls) + Eol(crlf))
    ensures |LinesText(ls) + Eol(crlf)| == |LineText(l)| + |LinesText(ls') + Eol(crlf)|
  {
    ls := [l] + ls';
    assert ls[1..] == ls';
    LinesTextCons(ls, crlf);
    AtParts(s, i, LineText(l), LinesText(ls') + Eol(crlf));
  }

  lemma CodeDigits(a: nat, b: nat, c: nat)
    requires a < 10 && b < 10 && c < 10
    ensures var n := 100 * a + 10 * b + c; n / 100 == a && n / 10 % 10 == b && n % 10 == c
  {
  }

  lemma StatusPrefixStands(s: seq<byte>)
    requires StatusLine(s).Ok?
    ensures var st := StatusLine(s).value;
            st.minor < 10 && st.code < 1000 && At(s, 0, StatusPrefix(st.minor, st.code))
  {
    hide TokenToEol;
    CodeDigits(Digit(s[9]), Digit(s[10]), Digit(s[11]));
    assert forall j | 0 <= j < 7 :: s[j] == s[0..7][j];
  }

  lemma StatusSound(s: seq<byte>) returns (m: Message)
    requires StatusLine(s).Ok?
    ensures MessageOk(m) && m.lines == [] && At(s, 0, StatusText(m)) && StatusLine(s).next == |StatusText(m)|
  {
    hide TokenToEol, Eol, StatusPrefix;
    var st := StatusLine(s).value;
    var crlf := TokenSound(s, 13);
    StatusPrefixStands(s);
    m := Message(st.minor, st.code, s[13..st.msg.end], crlf, [], true);
    SliceAt(s, 13, st.msg.end);
    hide At;
    var t := StatusPrefix(m.minor, m.code);
    AtParts(s, 0, t, m.msg);
    AtParts(s, 0, t + m.msg, Eol(crlf));
  }

  /** Whatever is accepted is a printed head: nothing else gets through. */
  lemma AcceptedIsMessage(s: seq<byte>, max: nat) returns (m: Message)
    requires ParseResponse(s, max).verdict.Accepted?
    ensures MessageOk(m) && |m.lines| <= max
    ensures At(s, 0, MessageText(m)) && ParseResponse(s, max).consumed == |MessageText(m)|
  {
    hide StatusLine, HeadersFrom, StatusText, LineOk;
    var m0 := StatusSound(s);
    StatusAdvances(s);
    var ls, crlf := HeadersSound(s, StatusLine(s).next, [], max);
    m := m0.(lines := ls, endCrlf := crlf);
    assert StatusText(m) == StatusText(m0) by { StatusTextIgnoresLines(m0, ls, crlf); }
    AtParts(s, 0, StatusText(m), LinesText(ls) + Eol(crlf));
    assert MessageText(m) == StatusText(m) + (LinesText(ls) + Eol(crlf));
  }

  lemma StatusTextIgnoresLines(m: Message, ls: seq<Line>, crlf: bool)
    requires m.minor < 10 && m.code < 1000
    ensures StatusText(m.(lines := ls, endCrlf := crlf)) == StatusText(m)
  {
  }

  /** The parser accepts `n` bytes of `s` exactly when they are the text of a well-formed head. */
  lemma AcceptsExactlyMessages(s: seq<byte>, max: nat, n: nat)
    ensures ParseResponse(s, max).verdict.Accepted? && ParseResponse(s, max).consumed == n <==>
            exists m :: MessageOk(m) && |m.lines| <= max && |MessageText(m)| == n && At(s, 0, MessageText(m))
  {
    hide ParseResponse, MessageText;
    if ParseResponse(s, max).verdict.Accepted? && ParseResponse(s, max).consumed == n {
      var m := AcceptedIsMessage(s, max);
    }
    forall m | MessageOk(m) && |m.lines| <= max && |MessageText(m)| == n && At(s, 0, MessageText(m))
      ensures ParseResponse(s, max).verdict.Accepted? && ParseResponse(s, max).consumed == n
    {
      assert s == MessageText(m) + s[n..];
      ResponseRoundTrip(m, s[n..], max);
    }
  }
}
