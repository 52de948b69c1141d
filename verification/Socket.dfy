/** Receive and Send of CSocket over a reliable stream (src/util/socket.h). */
module Socket {
  import opened Bytes
  import opened Memory

  const TWO_64: int := 0x1_0000_0000_0000_0000

  /** A buffer that is filled octet by octet: the first p of the stream, the others as they were. */
  function Filled(stream: seq<byte>, was: seq<byte>, p: nat): (r: seq<byte>)
    requires p <= |stream| && p <= |was|
    ensures |r| == |was|
  {
    if p == 0 then was else Filled(stream, was, p - 1)[p - 1 := stream[p - 1]]
  }

  lemma {:induction false} FilledMeans(stream: seq<byte>, was: seq<byte>, p: nat)
    requires p <= |stream| && p <= |was|
    ensures Filled(stream, was, p) == stream[..p] + was[p..]
  {
    if p == 0 {
    } else {
      FilledMeans(stream, was, p - 1);
    }
  }

  lemma FilledParts(stream: seq<byte>, was: seq<byte>, p: nat)
    requires p <= |stream| && p <= |was|
    ensures Filled(stream, was, p)[..p] == stream[..p] && Filled(stream, was, p)[p..] == was[p..]
  {
    FilledMeans(stream, was, p);
  }

  lemma NothingTaken(stream: seq<byte>, was: seq<byte>)
    ensures Filled(stream, was, 0) == was && stream[0..] == stream
  {
  }

  lemma FilledNext(stream: seq<byte>, was: seq<byte>, p: nat, chunk: seq<byte>)
    requires p + |chunk| <= |stream| && p + |chunk| <= |was| && chunk == stream[p..p + |chunk|]
    ensures var mid := Filled(stream, was, p);
      mid[..p] + chunk + mid[p + |chunk|..] == Filled(stream, was, p + |chunk|)
  {
    FilledMeans(stream, was, p);
    FilledMeans(stream, was, p + |chunk|);
    var mid, q := Filled(stream, was, p), p + |chunk|;
    assert mid[..p] == stream[..p] && mid[q..] == was[q..];
    assert stream[..p] + chunk == stream[..q];
  }

  /** How many octets Receive takes when this many are available. */
  function Taken(available: nat, nLen: int): nat {
    if nLen <= 0 then 0 else if nLen <= available then nLen else available
  }

  class CSocket {
    // What the peer still delivers before it closes, and what has been handed to the network.
    var incoming: seq<byte>
    var outgoing: seq<byte>
    var bytesSent: int
    var bytesReceived: int

    constructor (incoming: seq<byte>)
      ensures this.incoming == incoming && outgoing == []
      ensures bytesSent == 0 && bytesReceived == 0
    {
      this.incoming := incoming;
      outgoing := [];
      bytesSent, bytesReceived := 0, 0;
    }

    /** recv: any non-empty part of what is asked for, 0 once the stream has ended. */
    method Recv(n: nat) returns (chunk: seq<byte>)
      requires n > 0
      modifies this`incoming
      ensures old(incoming) == chunk + incoming
      ensures |chunk| <= n && (chunk == [] <==> old(incoming) == [])
    {
      var k :| 0 <= k <= n && k <= |incoming| && (k == 0 <==> incoming == []);
      chunk := incoming[..k];
      incoming := incoming[k..];
      assert old(incoming) == chunk + incoming;
    }

    /** Of this stream the first p octets have been taken. */
    ghost predicate Moved(stream: seq<byte>, p: nat)
      reads this
    {
      p <= |stream| && incoming == stream[p..]
    }

    /** One turn of the loop of Receive: what recv gives goes to pBuf + p. */
    method ReceiveOnce(pBuf: array<byte>, p: nat, n: nat, ghost stream: seq<byte>, ghost was: seq<byte>)
        returns (k: nat)
      requires n > 0 && p + n <= pBuf.Length == |was|
      requires Moved(stream, p) && pBuf[..] == Filled(stream, was, p)
      modifies this`incoming, pBuf
      ensures k <= n && p + k <= |stream| && (k == 0 <==> p == |stream|)
      ensures Moved(stream, p + k) && pBuf[..] == Filled(stream, was, p + k)
    {
      var chunk := Recv(n);
      k := |chunk|;
      CopyInto(pBuf, p, chunk);
      FilledNext(stream, was, p, chunk);
    }

    /** The loop of Receive: it ends with nLen octets, or with all that there are. */
    method ReceiveAll(pBuf: array<byte>, nLen: int) returns (p: nat)
      requires nLen <= pBuf.Length
      modifies this`incoming, pBuf
      ensures p == Taken(|old(incoming)|, nLen)
      ensures incoming == old(incoming)[p..] && pBuf[..] == Filled(old(incoming), old(pBuf[..]), p)
    {
      ghost var stream, was := incoming, pBuf[..];
      NothingTaken(stream, was);
      p := 0;
      var n := nLen;
      while n > 0
        invariant p <= |stream| && p + n == nLen && (nLen > 0 ==> n >= 0) && (nLen <= 0 ==> p == 0)
        invariant Moved(stream, p) && pBuf[..] == Filled(stream, was, p)
      {
        var k := ReceiveOnce(pBuf, p, n, stream, was);
        if k == 0 {
          return p;
        }
        p, n := p + k, n - k;
      }
    }

    /**
     * Receive: the next nLen octets of the stream, whatever the chunks; or 0, uncounted, when the
     * stream ends before. A length that is not positive is counted and returned unchanged.
     */
    method Receive(pBuf: array<byte>, nLen: int) returns (ret: int)
      requires nLen <= pBuf.Length
      modifies this`incoming, this`bytesReceived, pBuf
      ensures 0 <= nLen <= |old(incoming)| ==>
        && ret == nLen && incoming == old(incoming)[nLen..]
        && pBuf[..nLen] == old(incoming)[..nLen] && pBuf[nLen..] == old(pBuf[nLen..])
      ensures nLen > |old(incoming)| ==> var all := |old(incoming)|;
        && ret == 0 && incoming == []
        && pBuf[..all] == old(incoming) && pBuf[all..] == old(pBuf[all..])
      ensures nLen < 0 ==> ret == nLen && incoming == old(incoming) && pBuf[..] == old(pBuf[..])
      ensures bytesReceived ==
        if nLen <= |old(incoming)| then (old(bytesReceived) + nLen) % 0x1_0000_0000_0000_0000 else old(bytesReceived)
    {
      ghost var stream, was := incoming, pBuf[..];
      var p := ReceiveAll(pBuf, nLen);
      FilledParts(stream, was, p);
      if p < nLen {
        return 0;
      }
      bytesReceived := (bytesReceived + nLen) % TWO_64;
      ret := nLen;
    }

    /** Send counts first and hands the octets over; send blocks until all are written. */
    method Send(pBuf: seq<byte>) returns (ret: int)
      modifies this`outgoing, this`bytesSent
      ensures ret == |pBuf| && outgoing == old(outgoing) + pBuf
      ensures bytesSent == (old(bytesSent) + |pBuf|) % 0x1_0000_0000_0000_0000
    {
      bytesSent := (bytesSent + |pBuf|) % TWO_64;
      outgoing := outgoing + pBuf;
      ret := |pBuf|;
    }
  }
}
