/** The client's framing layer: whatever way the network cuts the stream, head and body come out whole. */
module HttpClient {
  import opened Bytes
  import opened HeadSpec
  import opened StreamBuffer
  import HeadPrefix
  import HeadParser

  /** A finished `recv`: some bytes, none at end of stream, or an error (an exception in the source). */
  datatype Recv = Data(bytes: seq<byte>) | Failed

  /** A connected socket whose peer sends `stream` and closes; how it is cut is not for us to choose. */
  class Socket {
    const stream: seq<byte>
    var pos: nat
    ghost var failures: nat  // how many receives have failed

    constructor (stream: seq<byte>)
      ensures this.stream == stream && pos == 0 && failures == 0
    {
      this.stream := stream;
      pos := 0;
      failures := 0;
    }

    ghost predicate Valid()
      reads this
    {
      pos <= |stream|
    }

    /** What the peer has still to deliver. */
    ghost function Left(): seq<byte>
      requires Valid()
      reads this
    {
      stream[pos..]
    }

    method Receive(cap: nat) returns (r: Recv)
      requires Valid() && cap > 0
      modifies this
      ensures Valid()
      ensures r.Failed? ==> pos == old(pos)
      ensures failures == old(failures) + if r.Failed? then 1 else 0
      ensures r.Data? ==> |r.bytes| <= cap && old(Left()) == r.bytes + Left() && pos == old(pos) + |r.bytes|
      ensures r.Data? && r.bytes == [] ==> Left() == []
    {
      if * {
        failures := failures + 1;
        return Failed;
      }
      var most := Min(cap, |stream| - pos);
      var n: nat :| n <= most && (n == 0 ==> most == 0);
      r := Data(stream[pos..pos + n]);
      pos := pos + n;
    }
  }

  // What the framing promises ---------------------------------------------------------------

  predicate EndsWith(s: seq<byte>, w: seq<byte>) { |w| <= |s| && At(s, |s| - |w|, w) }

  /** Up to and including the first delimiter, or everything. */
  function Upto(whole: seq<byte>, delim: seq<byte>): seq<byte> {
    var k := FindFrom(whole, delim, 0);
    if k.Some? then whole[..k.value + |delim|] else whole
  }

  /** That is the shortest prefix that ends in the delimiter, if any does. */
  lemma UptoIsShortest(whole: seq<byte>, delim: seq<byte>)
    ensures Upto(whole, delim) <= whole
    ensures forall m: nat | m < |Upto(whole, delim)| :: !EndsWith(whole[..m], delim)
    ensures (exists m: nat :: m <= |whole| && EndsWith(whole[..m], delim)) ==> EndsWith(Upto(whole, delim), delim)
  {
    forall m: nat | m <= |whole| && EndsWith(whole[..m], delim)
      ensures At(whole, m - |delim|, delim)
    {
      assert whole[..m][m - |delim|..m] == whole[m - |delim|..m];
    }
    var k := FindFrom(whole, delim, 0);
    if k.Some? {
      var p := whole[..k.value + |delim|];
      assert p[k.value..] == whole[k.value..k.value + |delim|];
    }
  }

  // The delimiter search with its overlap window ----------------------------------------------

  /** `text` holds no delimiter, so one that shows up later starts at `beg` or after. */
  ghost predicate Searched(text: seq<byte>, delim: seq<byte>, beg: nat) {
    beg <= |text| && (beg == 0 || (beg + |delim| <= |text| && forall j: nat :: !At(text, j, delim)))
  }

  lemma AtExtends(s: seq<byte>, t: seq<byte>, j: nat, w: seq<byte>)
    requires j + |w| <= |s|
    ensures At(s + t, j, w) == At(s, j, w)
  {
    assert (s + t)[j..j + |w|] == s[j..j + |w|];
  }

  /** Searching on from `beg` after `more` arrived finds the first delimiter of all. */
  lemma ResumedSearch(text: seq<byte>, more: seq<byte>, rest: seq<byte>, delim: seq<byte>, beg: nat)
    requires Searched(text, delim, beg)
    ensures var k := FindFrom(text + more, delim, beg);
            && (k.Some? ==> FindFrom(text + more + rest, delim, 0) == k)
            && (k.None? ==> forall j: nat :: !At(text + more, j, delim))
  {
    var now := text + more;
    var k := FindFrom(now, delim, beg);
    forall j: nat | j < beg ensures !At(now, j, delim) { AtExtends(text, more, j, delim); }
    if k.Some? {
      forall j: nat | j <= k.value ensures At(now + rest, j, delim) == At(now, j, delim) {
        AtExtends(now, rest, j, delim);
      }
    }
  }

  function NextBeg(size: nat, delim: seq<byte>): nat { if size > |delim| then size - |delim| else 0 }

  lemma SearchStart(text: seq<byte>, delim: seq<byte>)
    ensures Searched(text, delim, 0)
  {
  }

  lemma SearchStep(whole: seq<byte>, text: seq<byte>, got: seq<byte>, left: seq<byte>, delim: seq<byte>, beg: nat)
    requires whole == text + (got + left) && Searched(text, delim, beg)
    ensures var str := text + got; var k := FindFrom(str, delim, beg);
            && whole == str + left
            && (k.Some? ==> FindFrom(whole, delim, 0) == k)
            && (k.None? ==> (forall j: nat :: !At(str, j, delim)) && Searched(str, delim, NextBeg(|str|, delim)))
  {
    hide FindFrom, At;
    assert text + (got + left) == text + got + left;
    ResumedSearch(text, got, left, delim, beg);
  }

  // Fragmentation of a body ---------------------------------------------------------------------------

  const MIN_BUF_SZ: nat := 64

  /** `std::string::max_size`: implementations differ below this, but every `int` length is under all of them. */
  const MAX_STRING: nat := 0x7fff_ffff_ffff_ffff

  function Room(need: nat): nat { if need > MIN_BUF_SZ then need else MIN_BUF_SZ }

  /** The sizes receives may bring while `need` bytes are wanted of `avail`; a failed receive ends the list early. */
  predicate Fragments(need: nat, avail: nat, sizes: seq<nat>)
    decreases |sizes|
  {
    if need == 0 || sizes == [] then sizes == []
    else
      && sizes[0] <= avail && sizes[0] <= Room(need)
      && if sizes[0] == 0 then avail == 0 && sizes == [0]
         else Fragments(need - Min(need, sizes[0]), avail - sizes[0], sizes[1..])
  }

  /** How many of those bytes are kept, and how many the clamp discards. */
  function Kept(need: nat, sizes: seq<nat>): nat
    decreases |sizes|
  {
    if need == 0 || sizes == [] then 0
    else Min(need, sizes[0]) + Kept(need - Min(need, sizes[0]), sizes[1..])
  }

  function Lost(need: nat, sizes: seq<nat>): nat
    decreases |sizes|
  {
    if need == 0 || sizes == [] then 0
    else if sizes[0] >= need then sizes[0] - need
    else Lost(need - sizes[0], sizes[1..])
  }

  /** A failed receive ended the loop. */
  predicate CutShort(need: nat, sizes: seq<nat>)
    decreases |sizes|
  {
    need > 0 && (sizes == [] || (0 < sizes[0] < need && CutShort(need - sizes[0], sizes[1..])))
  }

  /** The loop has read `sizes` and will add whatever it reads from here. */
  ghost predicate GoesOn(need0: nat, avail0: nat, sizes: seq<nat>, need: nat, avail: nat) {
    forall rest: seq<nat> | Fragments(need, avail, rest) ::
      && Fragments(need0, avail0, sizes + rest) && Lost(need0, sizes + rest) == Lost(need, rest)
      && Kept(need0, sizes + rest) == need0 - need + Kept(need, rest)
      && (CutShort(need0, sizes + rest) <==> CutShort(need, rest))
  }

  ghost predicate EndsWithLoss(need0: nat, avail0: nat, sizes: seq<nat>, lost: nat) {
    && Fragments(need0, avail0, sizes) && Lost(need0, sizes) == lost && Kept(need0, sizes) == need0
    && !CutShort(need0, sizes)
  }

  lemma StartOfLoop(need: nat, avail: nat)
    ensures need > 0 ==> GoesOn(need, avail, [], need, avail)
    ensures need == 0 ==> EndsWithLoss(need, avail, [], 0)
  {
    forall rest: seq<nat> ensures [] + rest == rest {}
  }

  /** What one more receive does to the account: it fails, finds the end, brings part of the rest or all of it. */
  lemma OneReceive(need0: nat, avail0: nat, sizes: seq<nat>, need: nat, avail: nat, n: nat, failed: bool)
    requires GoesOn(need0, avail0, sizes, need, avail) && 0 < need <= need0 && n <= avail && n <= Room(need)
    requires (failed ==> n == 0) && (n == 0 && !failed ==> avail == 0)
    ensures n == 0 ==> var all := if failed then sizes else sizes + [0];
              && Fragments(need0, avail0, all) && Lost(need0, all) == 0 && Kept(need0, all) == need0 - need
              && (CutShort(need0, all) <==> failed)
    ensures 0 < n < need ==> GoesOn(need0, avail0, sizes + [n], need - n, avail - n)
    ensures n >= need ==> EndsWithLoss(need0, avail0, sizes + [n], n - need)
  {
    hide Fragments, Lost, Kept, CutShort;
    Ends(need, avail);
    assert sizes + [] == sizes;
    if 0 < n < need {
      forall rest: seq<nat> | Fragments(need - n, avail - n, rest)
        ensures Fragments(need0, avail0, sizes + [n] + rest) && Lost(need0, sizes + [n] + rest) == Lost(need - n, rest)
        ensures Kept(need0, sizes + [n] + rest) == need0 - (need - n) + Kept(need - n, rest)
        ensures CutShort(need0, sizes + [n] + rest) <==> CutShort(need - n, rest)
      {
        assert sizes + [n] + rest == sizes + ([n] + rest);
        Received(need, avail, n, rest);
      }
    } else if n >= need {
      Received(need, avail, n, []);
      Ends(0, avail - n);
      assert [n] + [] == [n];
    }
  }

  lemma Ends(need: nat, avail: nat)
    ensures Fragments(need, avail, []) && Lost(need, []) == 0 && Kept(need, []) == 0
    ensures CutShort(need, []) <==> need > 0
    ensures need > 0 && avail == 0 ==>
              Fragments(need, avail, [0]) && Lost(need, [0]) == 0 && Kept(need, [0]) == 0 && !CutShort(need, [0])
  {
  }

  lemma Received(need: nat, avail: nat, n: nat, rest: seq<nat>)
    requires 0 < need && 0 < n <= avail && n <= Room(need)
    ensures Fragments(need, avail, [n] + rest) <==> Fragments(need - Min(need, n), avail - n, rest)
    ensures Lost(need, [n] + rest) == if n >= need then n - need else Lost(need - n, rest)
    ensures Kept(need, [n] + rest) == Min(need, n) + Kept(need - Min(need, n), rest)
    ensures CutShort(need, [n] + rest) <==> n < need && CutShort(need - n, rest)
  {
    assert ([n] + rest)[1..] == rest;
  }

  lemma {:induction false} Account(need: nat, avail: nat, sizes: seq<nat>)
    requires Fragments(need, avail, sizes)
    ensures Kept(need, sizes) + Lost(need, sizes) <= avail && Kept(need, sizes) <= need
    ensures Lost(need, sizes) < MIN_BUF_SZ
    ensures Kept(need, sizes) < need ==> Lost(need, sizes) == 0
    ensures !CutShort(need, sizes) ==> Kept(need, sizes) == Min(need, avail)
    decreases |sizes|
  {
    if need > 0 && sizes != [] && sizes[0] != 0 {
      Account(need - Min(need, sizes[0]), avail - sizes[0], sizes[1..]);
    }
  }

  // The same for a buffer in which `waiting` bytes wait already.

  predicate Delivered(waiting: nat, need: nat, avail: nat, sizes: seq<nat>) {
    if waiting >= need then sizes == [] else Fragments(need - waiting, avail, sizes)
  }

  function Returned(waiting: nat, need: nat, sizes: seq<nat>): nat {
    if waiting >= need then need else waiting + Kept(need - waiting, sizes)
  }

  function Vanished(waiting: nat, need: nat, sizes: seq<nat>): nat {
    if waiting >= need then 0 else Lost(need - waiting, sizes)
  }

  predicate BodyCutShort(waiting: nat, need: nat, sizes: seq<nat>) {
    waiting < need && CutShort(need - waiting, sizes)
  }

  /** Unless a receive fails, exactly what was wanted or all there is; fewer than 64 bytes vanish, and none early. */
  lemma BodyIsExact(waiting: nat, need: nat, avail: nat, sizes: seq<nat>)
    requires Delivered(waiting, need, avail, sizes)
    ensures !BodyCutShort(waiting, need, sizes) ==>
              Returned(waiting, need, sizes) == Min(need, waiting + avail)
    ensures Returned(waiting, need, sizes) <= need && Vanished(waiting, need, sizes) < 64
    ensures Returned(waiting, need, sizes) < need ==> Vanished(waiting, need, sizes) == 0
  {
    if waiting < need { Account(need - waiting, avail, sizes); }
  }

  /** The receives that make bytes vanish: all but one byte of what is wanted, then that one and some more. */
  function Unlucky(need: nat, more: nat): seq<nat>
    requires need > 0
  {
    if need == 1 then [1 + more] else [need - 1, 1 + more]
  }

  /** Every loss from 1 to 63 bytes occurs, for every body with that much behind it. */
  lemma UnluckyLoses(need: nat, avail: nat, more: nat)
    requires 0 < need && 0 < more < 64 && need + more <= avail
    ensures Fragments(need, avail, Unlucky(need, more)) && Lost(need, Unlucky(need, more)) == more
  {
    if need > 1 {
      assert Unlucky(need, more)[1..] == [1 + more] && Fragments(1, avail - (need - 1), [1 + more]);
    }
  }

  /** However the stream is cut nothing vanishes, exactly when the buffer has enough or no more is ahead than wanted. */
  lemma NothingVanishes(waiting: nat, need: nat, avail: nat)
    ensures (forall sizes | Delivered(waiting, need, avail, sizes) :: Vanished(waiting, need, sizes) == 0) <==>
            waiting >= need || waiting + avail <= need
  {
    if waiting < need {
      if waiting + avail <= need {
        forall sizes | Delivered(waiting, need, avail, sizes) ensures Vanished(waiting, need, sizes) == 0 {
          Account(need - waiting, avail, sizes);
        }
      } else {
        UnluckyLoses(need - waiting, avail, 1);
        assert Delivered(waiting, need, avail, Unlucky(need - waiting, 1));
      }
    }
  }

  // The client ---------------------------------------------------------------------------------

  lemma Regroup(a: seq<byte>, got: seq<byte>, n: nat, left: seq<byte>)
    requires n <= |got|
    ensures a + [] + (got + left) == a + got[..n] + got[n..] + left
  {
    assert got == got[..n] + got[n..];
  }

  /** Bytes that are neither returned nor still ahead. */
  function Dropped(before: seq<byte>, out: seq<byte>, after: seq<byte>): int {
    |before| - |out| - |after|
  }

  class Client {
    const socket: Socket
    const streambuf: StreamBuf
    const headers: array<Header>

    constructor (socket: Socket)
      requires socket.Valid()
      ensures Valid() && this.socket == socket && fresh(streambuf) && fresh(headers)
      ensures streambuf.Contents() == [] && headers.Length == 100
    {
      this.socket := socket;
      this.streambuf := new StreamBuf();
      this.headers := new Header[100](_ => Header(None, Span(0, 0)));
    }

    ghost predicate Valid()
      reads this, socket, streambuf
    {
      socket.Valid() && streambuf.Valid()
    }

    /** Everything still to come: what waits in the buffer, then what the peer has yet to send. */
    ghost function Ahead(): seq<byte>
      requires Valid()
      reads this, socket, streambuf
    {
      streambuf.Contents() + socket.Left()
    }

    /** One `recv` into the prepared span, committing up to `limit` of what came. */
    method ReceiveInto(room: nat, limit: nat) returns (n: nat, failed: bool, ghost bytes: seq<byte>)
      requires Valid() && room > 0
      modifies socket, streambuf
      ensures Valid() && n == |bytes| <= room && old(socket.Left()) == bytes + socket.Left()
      ensures streambuf.Contents() == old(streambuf.Contents()) + bytes[..Min(n, limit)]
      ensures socket.pos == old(socket.pos) + n
      ensures failed ==> n == 0
      ensures socket.failures == old(socket.failures) + if failed then 1 else 0
      ensures n == 0 && !failed ==> socket.Left() == []
    {
      hide StreamBuf.Contents;
      var at := streambuf.Prepare(room);
      var r := socket.Receive(room);
      match r
      case Failed =>
        n, failed, bytes := 0, true, [];
      case Data(got) =>
        n, failed, bytes := |got|, false, got;
        if n != 0 {
          streambuf.Fill(got);
          ghost var p, k := streambuf.pptr, Min(n, limit);
          assert streambuf.buf[p..p + n][..k] == streambuf.buf[p..p + k];
          streambuf.Commit(Min(n, limit));
        }
    }

    /** The receive loop of `read_until`: stops at the delimiter, at the end of the stream or on failure. */
    method Search(delim: seq<byte>) returns (pos: Option<nat>, failed: bool)
      requires Valid()
      modifies socket, streambuf
      ensures Valid() && Ahead() == old(Ahead())
      ensures pos.Some? ==> old(socket.Left()) != [] && pos.value + |delim| <= |streambuf.Contents()|
      ensures pos.Some? ==> FindFrom(old(Ahead()), delim, 0) == pos
      ensures |streambuf.Contents()| >= |old(streambuf.Contents())| + if pos.Some? then 1 else 0
      ensures socket.failures == old(socket.failures) + if failed then 1 else 0
      ensures failed ==> pos.None?
      ensures pos.None? && !failed ==> socket.Left() == []
      ensures pos.None? && !failed && old(socket.Left()) != [] ==> FindFrom(old(Ahead()), delim, 0) == None
    {
      hide FindFrom, At, Searched, StreamBuf.Valid, StreamBuf.Contents, Socket.Left;
      ghost var whole, text, any := Ahead(), streambuf.Contents(), false;
      var room, beg: nat := 512, 0;
      SearchStart(text, delim);
      while true
        invariant Valid() && text == streambuf.Contents() && Ahead() == whole
        invariant beg <= |text| && Searched(text, delim, beg)
        invariant !any ==> socket.Left() == old(socket.Left())
        invariant socket.failures == old(socket.failures)
        invariant |text| >= |old(streambuf.Contents())|
        invariant any ==> old(socket.Left()) != [] && forall j: nat :: !At(text, j, delim)
        decreases |socket.stream| - socket.pos
      {
        var n;
        ghost var got;
        n, failed, got := ReceiveInto(room, room);
        assert got[..n] == got;
        SearchStep(whole, text, got, socket.Left(), delim, beg);
        if n == 0 {
          assert text + got == text && (!failed ==> text + [] == text);
          return None, failed;
        }
        var str := streambuf.Data();
        pos := FindFrom(str, delim, beg);
        if pos.Some? {
          return;
        }
        beg := NextBeg(|str|, delim);
        room := 256;
        text, any := str, true;
      }
    }

    /** `read_until`. A failed receive is an exception: nothing is returned and nothing is lost. */
    method ReadUntil(delim: seq<byte>) returns (result: Option<seq<byte>>)
      requires Valid()
      modifies socket, streambuf
      ensures Valid()
      ensures socket.failures == old(socket.failures) + if result.None? then 1 else 0
      ensures result.None? ==> Ahead() == old(Ahead())
      ensures result.Some? ==> result.value + Ahead() == old(Ahead())
      ensures result.Some? && delim == [] ==> streambuf.Contents() == []
      ensures result.Some? && delim == [] ==>
                |result.value| >= old(|streambuf.Contents()|) + if old(socket.Left()) == [] then 0 else 1
      ensures result.Some? && delim != [] ==>
                result.value == if old(socket.Left()) == [] then old(Ahead()) else Upto(old(Ahead()), delim)
    {
      hide FindFrom;
      var pos, failed := Search(delim);
      assert delim == [] ==> At(old(Ahead()), 0, delim);
      if failed {
        return None;
      }
      var out := [];
      if pos.Some? {
        out := Take(pos.value + |delim|);
      }
      if out == [] {
        var n := streambuf.Size();
        out := Take(n);
      }
      result := Some(out);
    }

    /** Copies out and consumes the first `n` waiting bytes. */
    method Take(n: nat) returns (out: seq<byte>)
      requires Valid() && n <= |streambuf.Contents()|
      modifies streambuf
      ensures Valid() && |out| == n && out == old(streambuf.Contents())[..n] && out == old(Ahead())[..n]
      ensures out + Ahead() == old(Ahead()) && streambuf.Contents() == old(streambuf.Contents())[n..]
    {
      var str := streambuf.Data();
      out := str[..n];
      streambuf.Consume(n);
      assert str == out + str[n..];
    }

    /** `read_headers`. The parser's code is returned as a truth value, so a rejected head reports success. */
    method ReadHeaders(sse: bool) returns (head: Option<seq<byte>>, ok: bool, written: WrittenStatus, num: nat)
      requires Valid() && headers.Length == 100
      modifies socket, streambuf, headers
      ensures Valid()
      ensures socket.failures == old(socket.failures) + if head.None? then 1 else 0
      ensures head.None? ==> !ok && Ahead() == old(Ahead())
      ensures head.Some? ==> head.value + Ahead() == old(Ahead()) && ok == EndsWith(head.value, DCRLF)
      ensures head.Some? ==>
                head.value == if old(socket.Left()) == [] then old(Ahead()) else Upto(old(Ahead()), DCRLF)
      ensures head.Some? && ok ==>
                && num <= 100 && headers[..num] == ParseResponse(head.value, 100).headers
                && written == StatusWritten(head.value)
    {
      hide ParseResponse, FindFrom, StatusWritten;
      written, num := NO_STATUS, 0;
      head := ReadUntil(DCRLF);
      if head.None? || head.value == [] || !EndsWith(head.value, DCRLF) {
        return head, false, NO_STATUS, 0;
      }
      var ret;
      ret, written, num := HeadParser.ParseResponseEntry(head.value, headers, 100, 0, sse);
      HeadPrefix.ConsumedInRange(head.value, 100);
      ok := ret != 0;
    }

    /** The receive loop of `read_body`, on an empty buffer; `sizes` is what each receive brought. */
    method Gather(needRead: nat) returns (ghost sizes: seq<nat>, ghost extra: seq<byte>)
      requires Valid() && streambuf.Contents() == []
      modifies socket, streambuf
      ensures Valid() && old(socket.Left()) == streambuf.Contents() + extra + socket.Left()
      ensures Fragments(needRead, |old(socket.Left())|, sizes)
      ensures |streambuf.Contents()| == Kept(needRead, sizes) && |extra| == Lost(needRead, sizes)
      ensures socket.failures == old(socket.failures) + if CutShort(needRead, sizes) then 1 else 0
    {
      hide StreamBuf.Valid, StreamBuf.Contents, Socket.Left, Fragments, Lost, Kept, CutShort;
      var need := needRead;
      sizes, extra := [], [];
      ghost var avail := |socket.Left()|;
      StartOfLoop(needRead, avail);
      assert [] + [] + socket.Left() == socket.Left();
      while need > 0
        invariant Valid() && old(socket.Left()) == streambuf.Contents() + extra + socket.Left()
        invariant need >= 0 && |streambuf.Contents()| + need == needRead && (need > 0 ==> extra == [])
        invariant need > 0 ==> GoesOn(needRead, avail, sizes, need, |socket.Left()|)
        invariant need == 0 ==> EndsWithLoss(needRead, avail, sizes, |extra|)
        invariant socket.failures == old(socket.failures)
        decreases |socket.stream| - socket.pos
      {
        ghost var got0, left0 := streambuf.Contents(), socket.Left();
        var n, failed, got := ReceiveInto(Room(need), need);
        OneReceive(needRead, avail, sizes, need, |left0|, n, failed);
        if failed || n == 0 {
          sizes := if failed then sizes else sizes + [0];
          break;
        }
        sizes := sizes + [n];
        if n >= need {
          n := need;
        }
        extra := got[n..];
        Regroup(got0, got, n, socket.Left());
        need := need - n;
      }
    }

    /**
      * `read_body`. It throws when the result string could not be that long, after the waiting bytes are taken;
      * otherwise it returns the next bytes, as many as the receives bring.
      */
    method ReadBody(needRead: nat) returns (rsp: Option<seq<byte>>, ghost sizes: seq<nat>)
      requires Valid()
      modifies socket, streambuf
      ensures Valid()
      ensures var waiting := old(|streambuf.Contents()|); rsp.None? <==> waiting + MAX_STRING < needRead
      ensures rsp.None? ==> Ahead() == old(socket.Left()) && socket.failures == old(socket.failures)
      ensures rsp.Some? ==>
                var waiting, avail := old(|streambuf.Contents()|), old(|socket.Left()|);
                && rsp.value <= old(Ahead()) && Delivered(waiting, needRead, avail, sizes)
                && |rsp.value| == Returned(waiting, needRead, sizes)
                && Dropped(old(Ahead()), rsp.value, Ahead()) == Vanished(waiting, needRead, sizes)
                && socket.failures == old(socket.failures) + (if BodyCutShort(waiting, needRead, sizes) then 1 else 0)
                && (waiting >= needRead ==> Ahead() == old(Ahead())[needRead..])
                && (waiting < needRead ==> streambuf.Contents() == [])
    {
      hide Fragments, Lost, Kept, CutShort, StreamBuf.Valid, StreamBuf.Contents, Socket.Left;
      sizes := [];
      if needRead == 0 {
        return Some([]), [];
      }
      var s := streambuf.TryGetData(needRead);
      if s.Some? {
        streambuf.Consume(|s.value|);
        return s, [];
      }
      ghost var before, left := Ahead(), socket.Left();
      var head := streambuf.Data();
      streambuf.Consume(|head|);
      if needRead - |head| > MAX_STRING {
        assert [] + left == left;
        return None, [];
      }
      ghost var extra;
      sizes, extra := Gather(needRead - |head|);
      var more := streambuf.Data();
      var all := head + more;
      assert before == all + (extra + socket.Left()) by { assert left == more + (extra + socket.Left()); }
      streambuf.Consume(|all|);
      rsp := Some(all);
    }
  }

  // Head and parser ------------------------------------------------------------------------------

  predicate NoBareLf(s: seq<byte>) {
    forall j | 0 <= j < |s| && s[j] == LF :: j > 0 && s[j - 1] == CR
  }

  /** The parser stops at the end of the head exactly when no empty line comes earlier in it. */
  lemma HeadAgreement(head: seq<byte>, max: nat)
    requires ParseResponse(head, max).verdict.Accepted?
    ensures ParseResponse(head, max).consumed == |head| <==>
            EmptyLineAtEnd(head) && forall m: nat | m < |head| :: !HeadPrefix.EmptyLineEndsAt(head, m)
  {
    hide ParseResponse;
    HeadPrefix.StopsAtFirstEmptyLine(head, max);
    HeadPrefix.ConsumedInRange(head, max);
  }

  predicate EmptyLineAtEnd(head: seq<byte>) { HeadPrefix.EmptyLineEndsAt(head, |head|) }

  /** A head cut out at the first CRLFCRLF and free of bare LFs is consumed whole. */
  lemma CrlfHeadIsConsumed(whole: seq<byte>, max: nat)
    requires NoBareLf(Upto(whole, DCRLF)) && ParseResponse(Upto(whole, DCRLF), max).verdict.Accepted?
    ensures ParseResponse(Upto(whole, DCRLF), max).consumed == |Upto(whole, DCRLF)|
  {
    hide ParseResponse, Upto;
    var head := Upto(whole, DCRLF);
    HeadPrefix.StopsAtFirstEmptyLine(head, max);
    HeadPrefix.ConsumedInRange(head, max);
    UptoIsShortest(whole, DCRLF);
    var n := ParseResponse(head, max).consumed;
    assert head[..n] == whole[..n];
    assert head[n - 4..n] == [head[n - 4], head[n - 3], head[n - 2], head[n - 1]] == DCRLF;
    assert EndsWith(whole[..n], DCRLF) by { assert whole[..n][n - 4..] == head[n - 4..n]; }
  }
}
