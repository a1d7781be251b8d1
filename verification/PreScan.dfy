/** When the "is it complete yet" scan changes the kind of a failure, and why that is harmless. */
module PreScan {
  import opened Bytes
  import opened HeadSpec
  import opened HeadPrefix

  // What stops the scan, on the bytes alone ----------------------------------------------------------

  /** A carriage return followed by something other than a line feed. */
  predicate BareCrAt(s: seq<byte>, c: nat) { c + 1 < |s| && s[c] == CR && s[c + 1] != LF }

  /** Two line ends in a row, the second ending at `n`, the first no earlier than `i`. */
  predicate PairEndsAt(s: seq<byte>, i: nat, n: nat) {
    && i + 2 <= n <= |s| && s[n - 1] == LF
    && (s[n - 2] == LF || (i + 3 <= n && s[n - 2] == CR && s[n - 3] == LF))
  }

  ghost predicate HasBareCr(s: seq<byte>, i: nat) { exists c: nat :: i <= c && BareCrAt(s, c) }

  ghost predicate HasPair(s: seq<byte>, i: nat) { exists n: nat :: PairEndsAt(s, i, n) }

  /** A bare CR at or after `i` with no pair of line ends closed before it. */
  ghost predicate BareCrFirst(s: seq<byte>, i: nat) {
    exists c: nat :: i <= c && BareCrAt(s, c) && forall n: nat | n <= c :: !PairEndsAt(s, i, n)
  }

  /** The scan has come from `lo` to `i` without meeting either. */
  ghost predicate Clear(s: seq<byte>, lo: nat, i: nat, seen: nat) {
    && lo <= i <= |s| && seen <= 1 && (seen == 1 <==> lo < i && s[i - 1] == LF)
    && (forall c: nat | lo <= c < i :: !BareCrAt(s, c)) && (lo < i ==> s[i - 1] != CR)
    && (forall n: nat | n <= i :: !PairEndsAt(s, lo, n))
  }

  lemma ClearNext(s: seq<byte>, lo: nat, i: nat, seen: nat)
    requires Clear(s, lo, i, seen) && i < |s|
    ensures NotEol(s[i]) ==> Clear(s, lo, i + 1, 0)
    ensures !NotEol(s[i]) && LineEnd(s, i).Ok? ==>
              if seen == 1 then PairEndsAt(s, lo, LineEnd(s, i).next) else Clear(s, lo, LineEnd(s, i).next, 1)
    ensures !NotEol(s[i]) && LineEnd(s, i).Ok? ==> forall c: nat | lo <= c < LineEnd(s, i).next :: !BareCrAt(s, c)
    ensures !NotEol(s[i]) && LineEnd(s, i).Ok? ==> forall n: nat | n < LineEnd(s, i).next :: !PairEndsAt(s, lo, n)
  {
  }

  lemma {:induction false} ScanMeets(s: seq<byte>, lo: nat, i: nat, seen: nat)
    requires Clear(s, lo, i, seen)
    ensures BlankLine(s, i, seen).More? ==> !HasBareCr(s, lo) && !HasPair(s, lo)
    ensures BlankLine(s, i, seen).Bad? ==> BareCrFirst(s, lo)
    ensures BlankLine(s, i, seen).Ok? ==> HasPair(s, lo) && !BareCrFirst(s, lo)
    decreases |s| - i
  {
    if i < |s| {
      ClearNext(s, lo, i, seen);
      if NotEol(s[i]) {
        ScanMeets(s, lo, i + 1, 0);
      } else if LineEnd(s, i).Ok? && seen == 0 {
        ScanMeets(s, lo, LineEnd(s, i).next, 1);
      } else if LineEnd(s, i).Bad? {
        assert BareCrAt(s, i);
      }
    }
  }

  /** The scan's verdict, both ways. */
  lemma ScanVerdict(s: seq<byte>, i: nat)
    requires i <= |s|
    ensures BlankLine(s, i, 0).Bad? <==> BareCrFirst(s, i)
    ensures BlankLine(s, i, 0).More? <==> !HasBareCr(s, i) && !HasPair(s, i)
  {
    ScanMeets(s, i, i, 0);
  }

  // What the entry point makes of it --------------------------------------------------------------------

  /**
    * Exactly when the pre-scan keeps the verdict: "incomplete" unless a bare CR comes first, "error" unless
    * the scan finds nothing to stop at, success as long as a pair of line ends comes first.
    */
  lemma VerdictKept(s: seq<byte>, max: nat, lastLen: nat)
    requires 0 < lastLen <= |s|
    ensures var p, i := ParseResponse(s, max).verdict, ScanStart(lastLen);
            PhrParseResponse(s, max, lastLen).verdict == p <==>
              match p
              case Partial => !BareCrFirst(s, i)
              case Rejected => HasBareCr(s, i) || HasPair(s, i)
              case Accepted => HasPair(s, i) && !BareCrFirst(s, i)
    ensures var p, i := ParseResponse(s, max).verdict, ScanStart(lastLen);
            && (p.Partial? && BareCrFirst(s, i) ==> PhrParseResponse(s, max, lastLen).verdict.Rejected?)
            && (p.Rejected? && !HasBareCr(s, i) && !HasPair(s, i) ==>
                  PhrParseResponse(s, max, lastLen).verdict.Partial?)
  {
    ScanVerdict(s, ScanStart(lastLen));
  }

  /** Stopped once, the scan stops at the same place whatever follows. */
  lemma {:induction false} ScanExtends(s: seq<byte>, t: seq<byte>, i: nat, seen: nat)
    requires i <= |s|
    ensures !BlankLine(s, i, seen).More? ==> BlankLine(s + t, i, seen) == BlankLine(s, i, seen)
    decreases |s| - i
  {
    if i < |s| {
      if NotEol(s[i]) {
        ScanExtends(s, t, i + 1, 0);
      } else if LineEnd(s, i).Ok? && seen != 1 {
        ScanExtends(s, t, LineEnd(s, i).next, 1);
      }
    }
  }

  /** In the documented use an error is final: it stays one, and no further input would have been accepted. */
  lemma RejectionIsFinal(s: seq<byte>, t: seq<byte>, max: nat, lastLen: nat)
    requires lastLen <= |s| && ParseResponse(s[..lastLen], max).verdict.Partial?
    requires PhrParseResponse(s, max, lastLen).verdict.Rejected?
    ensures PhrParseResponse(s + t, max, lastLen).verdict.Rejected?
    ensures !ParseResponse(s + t, max).verdict.Accepted?
  {
    hide ParseResponse, BlankLine;
    ScanExtends(s, t, ScanStart(lastLen), 0);
    ResponseExtends(s, t, max);
    assert (s + t)[..lastLen] == s[..lastLen];
    PreScanIsTransparent(s + t, max, lastLen);
  }

  // A chain of calls -------------------------------------------------------------------------------------

  /** The lengths at which the growing buffer is parsed. */
  predicate Growing(cuts: seq<nat>, n: nat) {
    (forall k | 0 <= k < |cuts| :: cuts[k] <= n) && forall j, k | 0 <= j < k < |cuts| :: cuts[j] <= cuts[k]
  }

  /** Calls on ever longer prefixes of `s`, each told the length before, until one does not ask for more. */
  function Calls(s: seq<byte>, max: nat, cuts: seq<nat>, lastLen: nat): Response
    requires Growing(cuts, |s|) && (cuts != [] ==> lastLen <= cuts[0])
    decreases |cuts|
  {
    if cuts == [] then Response(Partial, 0, None, [])
    else
      var r := PhrParseResponse(s[..cuts[0]], max, lastLen);
      if r.verdict.Partial? then Calls(s, max, cuts[1..], cuts[0]) else r
  }

  /** Inside an accepted head every CR stands before its LF. */
  lemma NoBareCrInHead(s: seq<byte>, max: nat, c: nat, i: nat)
    requires ParseResponse(s, max).verdict.Accepted? && c < ParseResponse(s, max).consumed && c <= |s|
    ensures !HasBareCr(s[..c], i)
  {
    hide ParseResponse, BlankLine;
    StopsAtBlankLine(s, max);
    var e := ScanCloses(s, 0, 0);
  }

  /** Before the whole head is there, the entry point asks for more, whatever it was told. */
  lemma AsksForMore(s: seq<byte>, max: nat, c: nat, lastLen: nat)
    requires ParseResponse(s, max).verdict.Accepted? && lastLen <= c < ParseResponse(s, max).consumed && c <= |s|
    ensures PhrParseResponse(s[..c], max, lastLen).verdict.Partial?
  {
    hide ParseResponse, BlankLine;
    PrefixesOfAccepted(s, c, max);
    if lastLen > 0 {
      VerdictKept(s[..c], max, lastLen);
      NoBareCrInHead(s, max, c, ScanStart(lastLen));
    }
  }

  /**
    * Whatever the lengths, the calls accept at the first prefix that holds the head, with the outputs of one
    * parse of the whole, and until then they only ask for more.
    */
  lemma {:induction false} CallsAccept(s: seq<byte>, max: nat, cuts: seq<nat>, lastLen: nat)
    requires Growing(cuts, |s|) && (cuts != [] ==> lastLen <= cuts[0])
    requires ParseResponse(s, max).verdict.Accepted? && lastLen < ParseResponse(s, max).consumed
    ensures if exists k :: 0 <= k < |cuts| && cuts[k] >= ParseResponse(s, max).consumed
            then Calls(s, max, cuts, lastLen) == ParseResponse(s, max)
            else Calls(s, max, cuts, lastLen).verdict.Partial?
    decreases |cuts|
  {
    hide ParseResponse, PhrParseResponse;
    if cuts != [] {
      var c, n := cuts[0], ParseResponse(s, max).consumed;
      if c < n {
        AsksForMore(s, max, c, lastLen);
        CallsAccept(s, max, cuts[1..], c);
        assert forall k | 1 <= k < |cuts| :: cuts[k] == cuts[1..][k - 1];
      } else {
        PrefixesOfAccepted(s, c, max);
        PreScanKeepsSuccess(s[..c], max, lastLen);
      }
    }
  }

  /** Seen from the calls alone: an error means that no continuation of the buffer is a response. */
  lemma CallsRejectForGood(s: seq<byte>, t: seq<byte>, max: nat, cuts: seq<nat>)
    requires Growing(cuts, |s|) && Calls(s, max, cuts, 0).verdict.Rejected?
    ensures !ParseResponse(s + t, max).verdict.Accepted?
  {
    hide ParseResponse, PhrParseResponse;
    if ParseResponse(s + t, max).verdict.Accepted? {
      ConsumedInRange(s + t, max);
      SameCalls(s, t, max, cuts, 0);
      CallsAccept(s + t, max, cuts, 0);
    }
  }

  lemma {:induction false} SameCalls(s: seq<byte>, t: seq<byte>, max: nat, cuts: seq<nat>, lastLen: nat)
    requires Growing(cuts, |s|) && (cuts != [] ==> lastLen <= cuts[0])
    ensures Growing(cuts, |s + t|) && Calls(s + t, max, cuts, lastLen) == Calls(s, max, cuts, lastLen)
    decreases |cuts|
  {
    hide PhrParseResponse;
    if cuts != [] {
      assert (s + t)[..cuts[0]] == s[..cuts[0]];
      SameCalls(s, t, max, cuts[1..], cuts[0]);
    }
  }

  /** Both changes do occur: "incomplete" becomes "error" on one buffer, "error" becomes "incomplete" on the other. */
  lemma KindOfFailureChanges(max: nat)
    ensures var s := [65, 66, CR, 88];
            ParseResponse(s, max).verdict.Partial? && PhrParseResponse(s, max, 3).verdict.Rejected?
    ensures var s := Repeat(65, 9);
            ParseResponse(s, max).verdict.Rejected? && PhrParseResponse(s, max, 3).verdict.Partial?
  {
    var s, w := [65, 66, CR, 88], Repeat(65, 9);
    assert BareCrAt(s, 2);
    VerdictKept(s, max, 3);
    assert w[0..7][0] == 65;
    VerdictKept(w, max, 3);
  }
}
