/** Incremental behaviour of the response parser, and the pre-scan that may come before it. */
module HeadPrefix {
  import opened Bytes
  import opened HeadSpec

  // More input -----------------------------------------------------------------

  lemma FirstExtends(s: seq<byte>, t: seq<byte>, i: nat, p: byte -> bool)
    requires i <= |s|
    ensures var k, k' := First(s, i, p), First(s + t, i, p); if k < |s| then k' == k else k' >= |s|
  {
    assert forall j | 0 <= j < |s| :: (s + t)[j] == s[j];
  }

  lemma TokenExtends(s: seq<byte>, t: seq<byte>, i: nat)
    requires i <= |s|
    ensures Extends(TokenToEol(s, i), TokenToEol(s + t, i), |s|)
  {
    FirstExtends(s, t, i, IsCtl);
  }

  /** `r'` is what more input may make of `r`, the scan of the first `n` bytes. */
  predicate Extends<T(==)>(r: Scan<T>, r': Scan<T>, n: nat) {
    if r.More? then r'.Ok? ==> r'.next > n else r' == r
  }

  lemma ValueExtends(s: seq<byte>, t: seq<byte>, i: nat)
    requires i <= |s|
    ensures Extends(FieldValue(s, i), FieldValue(s + t, i), |s|)
  {
    FirstExtends(s, t, i, NotBlank);
    var v := First(s, i, NotBlank);
    if v < |s| { TokenExtends(s, t, v); }
  }

  lemma LineExtends(s: seq<byte>, t: seq<byte>, i: nat, first: bool)
    requires i < |s|
    ensures Extends(HeaderLine(s, i, first), HeaderLine(s + t, i, first), |s|)
  {
    hide TokenToEol, First, FieldValue;
    if !first && IsBlank(s[i]) {
      TokenExtends(s, t, i);
    } else {
      FirstExtends(s, t, i, NotTchar);
      var k := First(s, i, NotTchar);
      if k < |s| { ValueExtends(s, t, k + 1); } else { ValueAdvances(s + t, First(s + t, i, NotTchar) + 1); }
    }
  }

  lemma ValueAdvances(s: seq<byte>, i: nat)
    ensures i <= |s| && FieldValue(s, i).Ok? ==> FieldValue(s, i).next > i
  {
  }

  lemma {:induction false} HeadersNext(s: seq<byte>, i: nat, got: seq<Header>, max: nat)
    requires i <= |s|
    ensures var f := HeadersFrom(s, i, got, max); f.verdict.Accepted? ==> i < f.next <= |s|
    decreases |s| - i
  {
    if i < |s| && s[i] != CR && s[i] != LF && |got| != max {
      LineAdvances(s, i, got == []);
      var l := HeaderLine(s, i, got == []);
      if l.Ok? { HeadersNext(s, l.next, got + [l.value], max); }
    }
  }

  lemma ConsumedInRange(s: seq<byte>, max: nat)
    ensures var r := ParseResponse(s, max); r.verdict.Accepted? ==> 13 < r.consumed <= |s|
  {
    hide HeadersFrom, StatusLine;
    StatusAdvances(s);
    if StatusLine(s).Ok? { HeadersNext(s, StatusLine(s).next, [], max); }
  }

  lemma {:induction false} HeadersGrow(s: seq<byte>, i: nat, got: seq<Header>, max: nat)
    requires i <= |s|
    ensures got <= HeadersFrom(s, i, got, max).headers
    decreases |s| - i
  {
    if i < |s| && s[i] != CR && s[i] != LF && |got| != max {
      LineAdvances(s, i, got == []);
      var l := HeaderLine(s, i, got == []);
      if l.Ok? {
        HeadersGrow(s, l.next, got + [l.value], max);
      }
    }
  }

  predicate FieldsExtend(f: Fields, g: Fields, n: nat) {
    f.headers <= g.headers && if f.verdict.Partial? then g.verdict.Accepted? ==> g.next > n else g == f
  }

  lemma {:induction false} HeadersExtend(s: seq<byte>, t: seq<byte>, i: nat, got: seq<Header>, max: nat)
    requires i <= |s|
    ensures FieldsExtend(HeadersFrom(s, i, got, max), HeadersFrom(s + t, i, got, max), |s|)
    decreases |s| - i
  {
    if i < |s| && s[i] != CR && s[i] != LF && |got| != max {
      LineExtends(s, t, i, got == []);
      LineAdvances(s, i, got == []);
      LineAdvances(s + t, i, got == []);
      hide HeaderLine;
      var l, l' := HeaderLine(s, i, got == []), HeaderLine(s + t, i, got == []);
      if l.Ok? {
        HeadersExtend(s, t, l.next, got + [l.value], max);
      } else {
        HeadersGrow(s + t, i, got, max);
        if l'.Ok? { HeadersNext(s + t, l'.next, got + [l'.value], max); }
      }
    } else {
      HeadersGrow(s + t, i, got, max);
      HeadersNext(s + t, i, got, max);
    }
  }

  lemma StatusExtends(s: seq<byte>, t: seq<byte>)
    ensures Extends(StatusLine(s), StatusLine(s + t), |s|)
  {
    StatusAdvances(s + t);
    if |s| >= 9 { assert (s + t)[0..7] == s[0..7]; }
    if |s| >= 13 { TokenExtends(s, t, 13); }
  }

  /** A verdict once given stands for every extension, and counted headers stay counted. */
  lemma ResponseExtends(s: seq<byte>, t: seq<byte>, max: nat)
    ensures var r, q := ParseResponse(s, max), ParseResponse(s + t, max);
            && r.headers <= q.headers
            && (!r.verdict.Partial? ==> q == r)
            && (r.verdict.Partial? && q.verdict.Accepted? ==> q.consumed > |s|)
  {
    hide HeadersFrom, StatusLine;
    StatusExtends(s, t);
    StatusAdvances(s);
    StatusAdvances(s + t);
    if StatusLine(s).Ok? {
      HeadersExtend(s, t, StatusLine(s).next, [], max);
    } else if StatusLine(s + t).Ok? {
      HeadersNext(s + t, StatusLine(s + t).next, [], max);
    }
  }

  /** Cut before its end, an accepted head is merely incomplete; cut after, it is accepted as before. */
  lemma PrefixesOfAccepted(s: seq<byte>, m: nat, max: nat)
    requires ParseResponse(s, max).verdict.Accepted? && m <= |s|
    ensures ParseResponse(s, max).consumed <= |s|
    ensures if m < ParseResponse(s, max).consumed then ParseResponse(s[..m], max).verdict.Partial?
            else ParseResponse(s[..m], max) == ParseResponse(s, max)
  {
    hide ParseResponse;
    assert s[..m] + s[m..] == s;
    ConsumedInRange(s, max);
    ResponseExtends(s[..m], s[m..], max);
    ConsumedInRange(s[..m], max);
  }

  // The parser and the blank-line scan agree --------------------------------------

  predicate NotEol(b: byte) { b != CR && b != LF }

  lemma {:induction false} ScanSkips(s: seq<byte>, i: nat, k: nat, seen: nat)
    requires i < k <= |s| && forall j | i <= j < k :: NotEol(s[j])
    ensures BlankLine(s, i, seen) == BlankLine(s, k, 0)
    decreases k - i
  {
    assert NotEol(s[i]);
    if i + 1 < k { ScanSkips(s, i + 1, k, 0); }
  }

  lemma ScanLine(s: seq<byte>, i: nat, first: bool, seen: nat)
    requires i < |s| && NotEol(s[i]) && HeaderLine(s, i, first).Ok?
    ensures HeaderLine(s, i, first).next <= |s|
    ensures BlankLine(s, i, seen) == BlankLine(s, HeaderLine(s, i, first).next, 1)
  {
    var v := HeaderLine(s, i, first).value.value;
    var k := v.end;
    assert !NotEol(s[k]);
    forall j | i <= j < k ensures NotEol(s[j]) {
      if !first && IsBlank(s[i]) {
        assert !IsCtl(s[j]);
      } else {
        var c := First(s, i, NotTchar);
        if j < c { assert IsTchar(s[j]); }
        else if c < j < v.start { assert IsBlank(s[j]); }
        else if v.start <= j { assert !IsCtl(s[j]); }
      }
    }
    ScanSkips(s, i, k, seen);
  }

  lemma {:induction false} ScanHeaders(s: seq<byte>, i: nat, got: seq<Header>, max: nat)
    requires i <= |s| && HeadersFrom(s, i, got, max).verdict.Accepted?
    ensures BlankLine(s, i, 1) == Ok((), HeadersFrom(s, i, got, max).next)
    decreases |s| - i
  {
    if s[i] != CR && s[i] != LF {
      hide BlankLine;
      LineAdvances(s, i, got == []);
      ScanLine(s, i, got == [], 1);
      var l := HeaderLine(s, i, got == []);
      ScanHeaders(s, l.next, got + [l.value], max);
    }
  }

  /** Whatever the parser accepts, it stops exactly at the first empty line of the buffer. */
  lemma StopsAtBlankLine(s: seq<byte>, max: nat)
    requires ParseResponse(s, max).verdict.Accepted?
    ensures BlankLine(s, 0, 0) == Ok((), ParseResponse(s, max).consumed)
  {
    var st := StatusLine(s);
    var k := st.value.msg.end;
    forall j | 0 <= j < k ensures NotEol(s[j]) {
      if j < 7 { assert s[0..7][j] == s[j]; }
    }
    ScanSkips(s, 0, k, 0);
    ScanHeaders(s, st.next, [], max);
  }

  // The pre-scan -----------------------------------------------------------------

  /** `e` and the line end after it are the two that close the scan at `n`. */
  predicate ClosesAt(s: seq<byte>, e: nat, n: nat) {
    && e < n <= |s| && s[e] == LF && s[n - 1] == LF
    && (n == e + 2 || (n == e + 3 && s[e + 1] == CR))
    && forall j | 0 <= j < n && s[j] == CR :: j + 1 < n && s[j + 1] == LF
  }

  lemma {:induction false} ScanCloses(s: seq<byte>, i: nat, seen: nat) returns (e: nat)
    requires i <= |s| && BlankLine(s, i, seen).Ok? && seen <= 1
    requires seen == 1 ==> i > 0 && s[i - 1] == LF
    requires forall j | 0 <= j < i && s[j] == CR :: j + 1 < i && s[j + 1] == LF
    ensures ClosesAt(s, e, BlankLine(s, i, seen).next)
    decreases |s| - i
  {
    if s[i] == CR || s[i] == LF {
      var next := LineEnd(s, i).next;
      if seen == 1 { e := i - 1; } else { e := ScanCloses(s, next, 1); }
    } else {
      e := ScanCloses(s, i + 1, 0);
    }
  }

  /** Started anywhere up to the closing pair, the scan finds a blank line too. */
  lemma {:induction false} ScanFromMiddle(s: seq<byte>, p: nat, seen: nat, e: nat, n: nat)
    requires ClosesAt(s, e, n) && p <= e + 1 && seen <= 1 && (p == e + 1 ==> seen == 1)
    ensures BlankLine(s, p, seen).Ok? && BlankLine(s, p, seen).next <= n
    decreases n - p
  {
    if p <= e {
      if s[p] == CR || s[p] == LF {
        var next := LineEnd(s, p).next;
        if seen == 0 { ScanFromMiddle(s, next, 1, e, n); }
      } else {
        ScanFromMiddle(s, p + 1, 0, e, n);
      }
    }
  }

  /** An empty line ends at `n`: the line end before it follows another one directly. */
  predicate EmptyLineEndsAt(s: seq<byte>, n: nat) {
    && 2 <= n <= |s| && s[n - 1] == LF
    && (s[n - 2] == LF || (n >= 3 && s[n - 2] == CR && s[n - 3] == LF))
  }

  /** The parser consumes exactly up to the first empty line, however its lines end. */
  lemma StopsAtFirstEmptyLine(s: seq<byte>, max: nat)
    requires ParseResponse(s, max).verdict.Accepted?
    ensures EmptyLineEndsAt(s, ParseResponse(s, max).consumed)
    ensures forall m: nat | m < ParseResponse(s, max).consumed :: !EmptyLineEndsAt(s, m)
  {
    hide ParseResponse, BlankLine;
    StopsAtBlankLine(s, max);
    var e := ScanCloses(s, 0, 0);
    forall m: nat | m < ParseResponse(s, max).consumed && EmptyLineEndsAt(s, m) ensures false {
      ScanFromMiddle(s, 0, 0, if s[m - 2] == LF then m - 2 else m - 3, m);
    }
  }

  /** The pre-scan lets every acceptable head through as long as `lastLen` is within it. */
  lemma PreScanKeepsSuccess(s: seq<byte>, max: nat, lastLen: nat)
    requires lastLen <= |s| && ParseResponse(s, max).verdict.Accepted? && lastLen <= ParseResponse(s, max).consumed
    ensures PhrParseResponse(s, max, lastLen) == ParseResponse(s, max)
  {
    hide ParseResponse, BlankLine;
    StopsAtBlankLine(s, max);
    ConsumedInRange(s, max);
    var e := ScanCloses(s, 0, 0);
    if lastLen > 0 {
      ScanFromMiddle(s, ScanStart(lastLen), 0, e, ParseResponse(s, max).consumed);
    }
  }

  /** The documented use: the first `lastLen` bytes came back incomplete, then more arrived. */
  lemma PreScanIsTransparent(s: seq<byte>, max: nat, lastLen: nat)
    requires lastLen <= |s| && ParseResponse(s[..lastLen], max).verdict.Partial?
    ensures PhrParseResponse(s, max, lastLen).verdict.Accepted? <==> ParseResponse(s, max).verdict.Accepted?
    ensures ParseResponse(s, max).verdict.Accepted? ==> PhrParseResponse(s, max, lastLen) == ParseResponse(s, max)
  {
    hide ParseResponse, BlankLine;
    if ParseResponse(s, max).verdict.Accepted? {
      PrefixesOfAccepted(s, lastLen, max);
      PreScanKeepsSuccess(s, max, lastLen);
    }
  }
}
