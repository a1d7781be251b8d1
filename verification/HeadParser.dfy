/** The parser as written: cursors, block skips, unrolled loops and a header array filled in place. */
module HeadParser {
  import opened Bytes
  import opened HeadSpec

  // Character classes as the code spells them ------------------------------------------

  datatype Range = Range(lo: byte, hi: byte)

  /** Control bytes other than HT, for text up to the end of a line. */
  const EOL_RANGES: seq<Range> := [Range(0, 8), Range(10, 31), Range(127, 127)]

  /** What ends a request-line token. */
  const TOKEN_RANGES: seq<Range> := [Range(0, 32), Range(127, 127)]

  /** What a header name is skipped up to. */
  const NAME_RANGES: seq<Range> :=
    [Range(0, 32), Range(34, 34), Range(40, 41), Range(44, 44), Range(47, 47), Range(58, 64), Range(91, 93),
     Range(123, 255)]

  predicate InRanges(b: byte, rs: seq<Range>) {
    exists k | 0 <= k < |rs| :: rs[k].lo <= b <= rs[k].hi
  }

  /** `token_char_map`, one row of 32 flags after another. */
  const TOKEN_CHAR_MAP: seq<string> := [
    "00000000000000000000000000000000",
    "01011111001101101111111111000000",
    "01111111111111111111111111100011",
    "11111111111111111111111111101010",
    "00000000000000000000000000000000",
    "00000000000000000000000000000000",
    "00000000000000000000000000000000",
    "00000000000000000000000000000000"]

  predicate TokenChar(b: byte) {
    assert forall k | 0 <= k < 8 :: |TOKEN_CHAR_MAP[k]| == 32;
    TOKEN_CHAR_MAP[b / 32][b % 32] == '1'
  }

  predicate IsPrintable(b: byte) { 32 <= b < 127 }

  /** The table is exactly the tchar set of section 3.2.6 of RFC 7230. */
  lemma TokenCharIsTchar(b: byte)
    ensures TokenChar(b) <==> IsTchar(b)
  {
  }

  lemma EolRanges(b: byte)
    ensures InRanges(b, EOL_RANGES) <==> IsCtl(b)
  {
    var rs := EOL_RANGES;
    assert rs[0] == Range(0, 8) && rs[1] == Range(10, 31) && rs[2] == Range(127, 127);
  }

  lemma TokenRanges(b: byte)
    ensures InRanges(b, TOKEN_RANGES) <==> IsSpaceOrCtl(b)
  {
    var rs := TOKEN_RANGES;
    assert rs[0] == Range(0, 32) && rs[1] == Range(127, 127);
  }

  /** The block skip never jumps over a byte that could not be part of a name. */
  lemma NameRanges(b: byte)
    ensures !InRanges(b, NAME_RANGES) ==> IsTchar(b)
  {
    var rs := NAME_RANGES;
    assert rs[0] == Range(0, 32) && rs[1] == Range(34, 34) && rs[2] == Range(40, 41) && rs[3] == Range(44, 44);
    assert rs[4] == Range(47, 47) && rs[5] == Range(58, 64) && rs[6] == Range(91, 93) && rs[7] == Range(123, 255);
  }

  // Scans --------------------------------------------------------------------------------

  /** What `_mm_cmpestri` is documented to give: the least index in a range, or 16. */
  function CompareRanges(rs: seq<Range>, block: seq<byte>): (r: nat)
    requires |block| == 16
    ensures r <= 16 && (forall j | 0 <= j < r :: !InRanges(block[j], rs)) && (r < 16 ==> InRanges(block[r], rs))
  {
    First(block, 0, (b: byte) => InRanges(b, rs))
  }

  /** Skips whole blocks of 16 on a build with the vector instruction, and nothing otherwise. */
  method FindCharFast(s: seq<byte>, i: nat, rs: seq<Range>, sse: bool) returns (buf: nat, found: bool)
    requires i <= |s|
    ensures i <= buf <= |s|
    ensures forall j | i <= j < buf :: !InRanges(s[j], rs)
    ensures found ==> buf < |s| && InRanges(s[buf], rs)
    ensures !found ==> buf == if sse then i + (|s| - i) / 16 * 16 else i
  {
    buf, found := i, false;
    if sse && |s| - buf >= 16 {
      var left := (|s| - buf) / 16 * 16;
      while left != 0
        invariant i <= buf <= |s| && left % 16 == 0 && buf + left == i + (|s| - i) / 16 * 16
        invariant forall j | i <= j < buf :: !InRanges(s[j], rs)
        decreases left
      {
        var r := CompareRanges(rs, s[buf..buf + 16]);
        assert forall j | buf <= j < buf + 16 :: s[j] == s[buf..buf + 16][j - buf];
        if r != 16 {
          return buf + r, true;
        }
        buf := buf + 16;
        left := left - 16;
      }
    }
  }

  lemma FirstUnique(s: seq<byte>, i: nat, k: nat, p: byte -> bool)
    requires i <= k <= |s| && (forall j | i <= j < k :: !p(s[j])) && (k < |s| ==> p(s[k]))
    ensures First(s, i, p) == k
  {
  }

  /** Eight bytes a turn, falling back to one at a time for what is neither printable nor control. */
  method SkipUnrolled(s: seq<byte>, i: nat) returns (buf: nat, found: bool)
    requires i <= |s|
    ensures i <= buf <= |s| && forall j | i <= j < buf :: !IsCtl(s[j])
    ensures found ==> buf < |s| && IsCtl(s[buf])
  {
    buf, found := i, false;
    while |s| - buf >= 8
      invariant i <= buf <= |s| && forall j | i <= j < buf :: !IsCtl(s[j])
      decreases |s| - buf
    {
      var n := 0;
      ghost var from := buf;
      while n < 8 && IsPrintable(s[buf])
        invariant n <= 8 && buf == from + n && forall j | i <= j < buf :: !IsCtl(s[j])
        decreases 8 - n
      {
        buf, n := buf + 1, n + 1;
      }
      if n < 8 {
        if (s[buf] < SP && s[buf] != HT) || s[buf] == 127 {
          return buf, true;
        }
        buf := buf + 1;
      }
    }
  }

  method GetTokenToEol(s: seq<byte>, i: nat, sse: bool) returns (r: Scan<Span>)
    requires i <= |s|
    ensures r == TokenToEol(s, i)
  {
    var buf, found;
    if sse {
      buf, found := FindCharFast(s, i, EOL_RANGES, true);
      forall j | i <= j < |s| ensures InRanges(s[j], EOL_RANGES) <==> IsCtl(s[j]) { EolRanges(s[j]); }
    } else {
      buf, found := SkipUnrolled(s, i);
    }
    if !found {
      while buf < |s| && (IsPrintable(s[buf]) || !((s[buf] < SP && s[buf] != HT) || s[buf] == 127))
        invariant i <= buf <= |s| && forall j | i <= j < buf :: !IsCtl(s[j])
      {
        buf := buf + 1;
      }
    }
    FirstUnique(s, i, buf, IsCtl);
    if buf == |s| {
      return More;
    }
    if s[buf] == CR {
      if buf + 1 == |s| {
        return More;
      }
      if s[buf + 1] != LF {
        return Bad;
      }
      return Ok(Span(i, buf), buf + 2);
    } else if s[buf] == LF {
      return Ok(Span(i, buf), buf + 1);
    }
    return Bad;
  }

  /** A request-line token; the cursor ends after the space. */
  method AdvanceToken(s: seq<byte>, i: nat, sse: bool) returns (r: Scan<Span>)
    requires i <= |s|
    ensures r == TokenToSpace(s, i)
  {
    var buf, found := FindCharFast(s, i, TOKEN_RANGES, sse);
    forall j | i <= j < |s| ensures InRanges(s[j], TOKEN_RANGES) <==> IsSpaceOrCtl(s[j]) { TokenRanges(s[j]); }
    while buf < |s| && s[buf] != SP
      invariant i <= buf <= |s| && forall j | i <= j < buf :: !IsSpaceOrCtl(s[j])
    {
      if !IsPrintable(s[buf]) && (s[buf] < SP || s[buf] == 127) {
        FirstUnique(s, i, buf, IsSpaceOrCtl);
        return Bad;
      }
      buf := buf + 1;
    }
    FirstUnique(s, i, buf, IsSpaceOrCtl);
    r := if buf == |s| then More else Ok(Span(i, buf), buf + 1);
  }

  /** The cursor of a header name, stopped at the first byte that is not a token character. */
  method ScanName(s: seq<byte>, i: nat, sse: bool) returns (buf: nat)
    requires i < |s|
    ensures buf == First(s, i, NotTchar)
  {
    var found;
    buf, found := FindCharFast(s, i, NAME_RANGES, sse);
    forall j | i <= j < buf ensures !NotTchar(s[j]) { NameRanges(s[j]); }
    while buf < |s| && s[buf] != COLON && TokenChar(s[buf])
      invariant i <= buf <= |s| && forall j | i <= j < buf :: !NotTchar(s[j])
    {
      TokenCharIsTchar(s[buf]);
      buf := buf + 1;
    }
    if buf < |s| { TokenCharIsTchar(s[buf]); }
    FirstUnique(s, i, buf, NotTchar);
  }

  method ParseHeaderLine(s: seq<byte>, i: nat, first: bool, sse: bool) returns (r: Scan<Header>)
    requires i < |s|
    ensures r == HeaderLine(s, i, first)
  {
    var name, buf := None, i;
    if first || !(s[i] == SP || s[i] == HT) {
      buf := ScanName(s, i, sse);
      if buf == |s| {
        return More;
      }
      if s[buf] != COLON || buf == i {
        return Bad;
      }
      name := Some(Span(i, buf));
      buf := buf + 1;
      ghost var v := buf;
      while buf < |s| && (s[buf] == SP || s[buf] == HT)
        invariant v <= buf <= |s| && forall j | v <= j < buf :: !NotBlank(s[j])
      {
        buf := buf + 1;
      }
      FirstUnique(s, v, buf, NotBlank);
      if buf == |s| {
        return More;
      }
    }
    var value := GetTokenToEol(s, buf, sse);
    r := WithName(name, value);
  }

  /** Fills `headers` from the front; slots past the count keep no promise. */
  method ParseHeaders(s: seq<byte>, i: nat, headers: array<Header>, max: nat, sse: bool)
    returns (verdict: Verdict, buf: nat, num: nat)
    requires i <= |s| && max <= headers.Length
    modifies headers
    ensures num <= max
    ensures var f := HeadersFrom(s, i, [], max);
            f.verdict == verdict && f.headers == headers[..num] && (verdict.Accepted? ==> buf == f.next)
    ensures forall k | max <= k < headers.Length :: headers[k] == old(headers[k])
  {
    hide HeaderLine;
    buf, num := i, 0;
    assert headers[..0] == [];
    while true
      invariant i <= buf <= |s| && num <= max
      invariant HeadersFrom(s, i, [], max) == HeadersFrom(s, buf, headers[..num], max)
      invariant forall k | max <= k < headers.Length :: headers[k] == old(headers[k])
      decreases |s| - buf
    {
      if buf == |s| {
        return Partial, buf, num;
      }
      if s[buf] == CR {
        if buf + 1 == |s| {
          return Partial, buf, num;
        }
        if s[buf + 1] != LF {
          return Rejected, buf, num;
        }
        return Accepted, buf + 2, num;
      } else if s[buf] == LF {
        return Accepted, buf + 1, num;
      }
      if num == max {
        return Rejected, buf, num;
      }
      LineAdvances(s, buf, num == 0);
      var r := ParseHeaderLine(s, buf, num == 0, sse);
      match r
      case More => return Partial, buf, num;
      case Bad => return Rejected, buf, num;
      case Ok(h, next) =>
        ghost var got := headers[..num];
        headers[num] := h;
        assert headers[..num + 1] == got + [h];
        buf, num := next, num + 1;
    }
  }

  method IsComplete(s: seq<byte>, lastLen: nat) returns (r: Scan<()>)
    requires lastLen <= |s|
    ensures r == BlankLine(s, ScanStart(lastLen), 0)
  {
    var buf, retCnt := if lastLen < 3 then 0 else lastLen - 3, 0;
    while true
      invariant buf <= |s| && 0 <= retCnt <= 1
      invariant BlankLine(s, ScanStart(lastLen), 0) == BlankLine(s, buf, retCnt)
      decreases |s| - buf
    {
      if buf == |s| {
        return More;
      }
      if s[buf] == CR {
        if buf + 1 == |s| {
          return More;
        }
        if s[buf + 1] != LF {
          return Bad;
        }
        buf, retCnt := buf + 2, retCnt + 1;
      } else if s[buf] == LF {
        buf, retCnt := buf + 1, retCnt + 1;
      } else {
        buf, retCnt := buf + 1, 0;
      }
      if retCnt == 2 {
        return Ok((), buf);
      }
    }
  }

  function ReturnCode(v: Verdict, consumed: nat): int {
    match v
    case Accepted => consumed
    case Rejected => -1
    case Partial => -2
  }

  /** A line end at the cursor: CRLF or a bare LF, anything else an error. */
  method ExpectEol(s: seq<byte>, i: nat) returns (r: Scan<()>)
    requires i < |s|
    ensures r == LineEnd(s, i)
  {
    if s[i] == CR {
      if i + 1 == |s| {
        return More;
      }
      return if s[i + 1] == LF then Ok((), i + 2) else Bad;
    } else if s[i] == LF {
      return Ok((), i + 1);
    }
    return Bad;
  }

  /** Byte by byte, but only once nine are there, so the cursor it returns is inside the buffer. */
  method ParseHttpVersion(s: seq<byte>, i: nat) returns (r: Scan<nat>)
    requires i <= |s|
    ensures r == Version(s, i)
    ensures r.Ok? ==> r.next == i + 8 < |s|
  {
    if |s| - i < 9 {
      return More;
    }
    assert s[i..i + 7] == [s[i], s[i + 1], s[i + 2], s[i + 3], s[i + 4], s[i + 5], s[i + 6]];
    if s[i] != 72 || s[i + 1] != 84 || s[i + 2] != 84 || s[i + 3] != 80 {  // HTTP
      return Bad;
    }
    if s[i + 4] != 47 || s[i + 5] != 49 || s[i + 6] != 46 {  // "/1."
      return Bad;
    }
    if s[i + 7] < 48 || 57 < s[i + 7] {
      return Bad;
    }
    return Ok(s[i + 7] - 48, i + 8);
  }

  /** The three digits of a status code, each added as soon as it is read. */
  method ParseInt3(s: seq<byte>) returns (code: nat, ok: bool)
    requires |s| >= 13
    ensures code == CodeRead(s) && ok == (IsDigit(s[9]) && IsDigit(s[10]) && IsDigit(s[11]))
  {
    if !IsDigit(s[9]) {
      return 0, false;
    }
    code := 100 * Digit(s[9]);
    if !IsDigit(s[10]) {
      return code, false;
    }
    code := code + 10 * Digit(s[10]);
    if !IsDigit(s[11]) {
      return code, false;
    }
    code := code + Digit(s[11]);
    ok := true;
  }

  method ParseResponseFrom(s: seq<byte>, headers: array<Header>, max: nat, sse: bool)
    returns (ret: int, written: WrittenStatus, num: nat)
    requires max <= headers.Length
    modifies headers
    ensures num <= max && written == StatusWritten(s)
    ensures var r := ParseResponse(s, max);
            && ret == ReturnCode(r.verdict, r.consumed) && headers[..num] == r.headers
            && (r.status.Some? ==>
                  written == WrittenStatus(r.status.value.minor, r.status.value.code, Some(r.status.value.msg)))
    ensures forall k | max <= k < headers.Length :: headers[k] == old(headers[k])
  {
    hide HeadersFrom, TokenToEol, Version;
    written, num := NO_STATUS, 0;
    var version := ParseHttpVersion(s, 0);
    match version {
      case More => return -2, written, 0;
      case Bad => return -1, written, 0;
      case Ok(minor, buf) =>
        written := written.(minor := minor);
        if s[buf] != SP {
          return -1, written, 0;
        }
        if |s| - (buf + 1) < 4 {
          return -2, written, 0;
        }
        var code, ok := ParseInt3(s);
        written := written.(code := code);
        if !ok || s[buf + 4] != SP {
          return -1, written, 0;
        }
        var msg := GetTokenToEol(s, buf + 5, sse);
        match msg {
          case More => return -2, written, 0;
          case Bad => return -1, written, 0;
          case Ok(span, next) =>
            StatusAdvances(s);
            WrittenIsFinal(s, []);
            written := written.(msg := Some(span));
            var verdict, end;
            verdict, end, num := ParseHeaders(s, next, headers, max, sse);
            ret := ReturnCode(verdict, end);
        }
    }
  }

  /** `phr_parse_response`: the pre-scan when `lastLen` is not zero, then the parse from the start. */
  method ParseResponseEntry(s: seq<byte>, headers: array<Header>, max: nat, lastLen: nat, sse: bool)
    returns (ret: int, written: WrittenStatus, num: nat)
    requires max <= headers.Length && lastLen <= |s|
    modifies headers
    ensures num <= max && written == PhrStatusWritten(s, lastLen)
    ensures var r := PhrParseResponse(s, max, lastLen);
            ret == ReturnCode(r.verdict, r.consumed) && headers[..num] == r.headers
    ensures forall k | max <= k < headers.Length :: headers[k] == old(headers[k])
  {
    hide ParseResponse, BlankLine, StatusWritten;
    if lastLen != 0 {
      var c := IsComplete(s, lastLen);
      if !c.Ok? {
        return if c.Bad? then -1 else -2, NO_STATUS, 0;
      }
    }
    ret, written, num := ParseResponseFrom(s, headers, max, sse);
  }

  /** One leading line end is skipped. */
  method SkipLeadingEol(s: seq<byte>) returns (r: Scan<()>)
    ensures r == SkipEmptyLine(s)
  {
    if s == [] {
      return More;
    }
    if s[0] == CR {
      if |s| == 1 {
        return More;
      }
      return if s[1] == LF then Ok((), 2) else Bad;
    }
    return Ok((), if s[0] == LF then 1 else 0);
  }

  /** `phr_parse_request` on a buffer of which nothing was seen before. */
  method ParseRequestEntry(s: seq<byte>, headers: array<Header>, max: nat, sse: bool)
    returns (ret: int, written: WrittenLine, num: nat)
    requires max <= headers.Length
    modifies headers
    ensures num <= max && written == LineWritten(s)
    ensures var r := ParseRequest(s, max);
            && ret == ReturnCode(r.verdict, r.consumed) && headers[..num] == r.headers
            && (r.line.Some? ==>
                  written == WrittenLine(Some(r.line.value.verb), Some(r.line.value.path), r.line.value.minor))
    ensures forall k | max <= k < headers.Length :: headers[k] == old(headers[k])
  {
    hide HeadersFrom, TokenToSpace, Version, First;
    written, num := NO_LINE, 0;
    var skip := SkipLeadingEol(s);
    if !skip.Ok? {
      return if skip.Bad? then -1 else -2, written, 0;
    }
    var verb := AdvanceToken(s, skip.next, sse);
    if !verb.Ok? {
      return if verb.Bad? then -1 else -2, written, 0;
    }
    TokenAdvances(s, skip.next);
    written := written.(verb := Some(verb.value));
    var path := AdvanceToken(s, verb.next, sse);
    if !path.Ok? {
      return if path.Bad? then -1 else -2, written, 0;
    }
    TokenAdvances(s, verb.next);
    written := written.(path := Some(path.value));
    var version := ParseHttpVersion(s, path.next);
    if !version.Ok? {
      return if version.Bad? then -1 else -2, written, 0;
    }
    written := written.(minor := version.value);
    var end := ExpectEol(s, version.next);
    if !end.Ok? {
      return if end.Bad? then -1 else -2, written, 0;
    }
    LineWrittenWhole(s);
    var verdict, next;
    verdict, next, num := ParseHeaders(s, end.next, headers, max, sse);
    ret := ReturnCode(verdict, next);
  }

  lemma TokenAdvances(s: seq<byte>, i: nat)
    requires i <= |s|
    ensures TokenToSpace(s, i).Ok? ==> i < TokenToSpace(s, i).next <= |s|
  {
  }
}
