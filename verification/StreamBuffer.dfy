/** The growable buffer between the socket and the parsers: a get area followed by a put area. */
module StreamBuffer {
  import opened Bytes

  function Min(a: nat, b: nat): nat { if a < b then a else b }

  class StreamBuf {
    var buf: seq<byte>
    // the get area is buf[gptr..egptr], the put area buf[pptr..epptr]
    var gptr: nat
    var egptr: nat
    var pptr: nat
    var epptr: nat
    // everything ever put in, and how much of it was taken out again
    ghost var put: seq<byte>
    ghost var taken: nat

    ghost predicate Valid()
      reads this
    {
      && gptr <= egptr <= pptr <= epptr == |buf|
      && taken <= |put| && buf[gptr..pptr] == put[taken..]
    }

    /** The bytes waiting to be read. */
    ghost function Contents(): seq<byte>
      requires Valid()
      reads this
    {
      put[taken..]
    }

    constructor ()
      ensures Valid() && Contents() == [] && |buf| == 128
    {
      buf := Repeat(0, 128);
      gptr, egptr, pptr, epptr := 0, 0, 0, 128;
      put, taken := [], 0;
    }

    method Commit(n: nat)
      requires Valid()
      modifies this
      ensures Valid() && taken == old(taken)
      ensures put == old(put) + old(buf[pptr..pptr + Min(n, epptr - pptr)])
      ensures Contents() == old(Contents()) + old(buf[pptr..pptr + Min(n, epptr - pptr)])
      ensures buf == old(buf) && epptr == old(epptr) && egptr == pptr
    {
      var k := Min(n, epptr - pptr);
      assert buf[gptr..pptr + k] == buf[gptr..pptr] + buf[pptr..pptr + k];
      assert (put + buf[pptr..pptr + k])[taken..] == put[taken..] + buf[pptr..pptr + k];
      put := put + buf[pptr..pptr + k];
      pptr := pptr + k;
      egptr := pptr;
    }

    method Consume(n: nat)
      requires Valid()
      modifies this
      ensures Valid() && put == old(put) && taken == old(taken) + Min(n, |old(Contents())|)
      ensures Contents() == old(Contents())[Min(n, |old(Contents())|)..]
      ensures buf == old(buf) && pptr == old(pptr) && epptr == old(epptr)
    {
      if egptr < pptr {
        egptr := pptr;
      }
      var k := Min(n, egptr - gptr);
      gptr := gptr + k;
      taken := taken + k;
    }

    /** Room for `n` more bytes; the vector only grows and nothing unread moves. */
    method Reserve(n: nat)
      requires Valid()
      modifies this
      ensures Valid() && Contents() == old(Contents()) && put == old(put) && taken == old(taken)
      ensures epptr - pptr >= n && pptr == old(pptr) && gptr == old(gptr)
      ensures old(buf) <= buf
    {
      if epptr - pptr >= n {
        return;
      }
      var getCurPos, putCurPos := gptr, pptr;
      var putEndPos := putCurPos + n;
      buf := buf + Repeat(0, putCurPos + n - |buf|);
      gptr, egptr := getCurPos, putCurPos;
      pptr, epptr := putCurPos, putEndPos;
    }

    /** The span handed to the socket: `n` bytes of the put area starting at the result. */
    method Prepare(n: nat) returns (at: nat)
      requires Valid()
      modifies this
      ensures Valid() && Contents() == old(Contents()) && put == old(put) && taken == old(taken)
      ensures at == pptr && at + n <= |buf| && old(buf) <= buf && pptr == old(pptr)
    {
      Reserve(n);
      at := pptr;
    }

    /** Someone else writes into the prepared span. */
    method Fill(bytes: seq<byte>)
      requires Valid() && |bytes| <= epptr - pptr
      modifies this
      ensures Valid() && Contents() == old(Contents()) && put == old(put) && taken == old(taken)
      ensures pptr == old(pptr) && epptr == old(epptr)
      ensures buf[pptr..pptr + |bytes|] == bytes
    {
      buf := buf[..pptr] + bytes + buf[pptr + |bytes|..];
    }

    method Size() returns (n: nat)
      requires Valid()
      ensures n == |Contents()|
    {
      n := pptr - gptr;
    }

    method Data() returns (d: seq<byte>)
      requires Valid()
      ensures d == Contents()
    {
      d := buf[gptr..pptr];
    }

    method TryGetData(n: nat) returns (d: Option<seq<byte>>)
      requires Valid()
      ensures d == if |Contents()| < n then None else Some(Contents()[..n])
    {
      assert n <= pptr - gptr ==> buf[gptr..gptr + n] == buf[gptr..pptr][..n];
      d := if pptr - gptr < n then None else Some(buf[gptr..gptr + n]);
    }

    /** The next byte without taking it, or end of file when nothing waits. */
    method Underflow() returns (c: Option<byte>)
      requires Valid()
      modifies this
      ensures Valid() && Contents() == old(Contents()) && put == old(put) && taken == old(taken)
      ensures c == if Contents() == [] then None else Some(Contents()[0])
      ensures c.Some? ==> egptr == pptr
    {
      if gptr < pptr {
        egptr := pptr;
        return Some(buf[gptr]);
      }
      return None;
    }

    /** One more byte at the back; `None` stands for end of file and stores nothing. */
    method Overflow(c: Option<byte>)
      requires Valid()
      modifies this
      ensures Valid() && taken == old(taken)
      ensures c.None? ==> Contents() == old(Contents()) && put == old(put) && buf == old(buf)
      ensures c.Some? ==> Contents() == old(Contents()) + [c.value] && put == old(put) + [c.value]
    {
      if c.None? {
        return;
      }
      Reserve(64);
      ghost var was := buf[gptr..pptr];
      buf := buf[pptr := c.value];
      assert buf[gptr..pptr + 1] == was + [c.value];
      assert (put + [c.value])[taken..] == put[taken..] + [c.value];
      pptr := pptr + 1;
      put := put + [c.value];
    }
  }
}
