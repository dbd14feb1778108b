/** The hand-off record of p3/stream/proxy.py: what an acceptor learned
    (the target address) and the bytes that arrived past its handshake. */
module Proxy {
  import opened Bytes
  import opened Addresses
  import opened Streams

  datatype ProxyRequest = ProxyRequest(addr: Address, rest: seq<byte>)

  const LT: byte := 0x3c     // '<'
  const SPACE: byte := 0x20  // ' '
  const UNIT_B: byte := 0x42 // 'B'
  const GT: byte := 0x3e     // '>'

  /** __str__: '<host port NB>' with N the size of rest. */
  function Str(req: ProxyRequest): (r: seq<byte>)
    ensures |r| == |req.addr.host| + |Decimal(req.addr.port)| + |Decimal(|req.rest|)| + 5
    ensures r[0] == LT && r[|r| - 2..] == [UNIT_B, GT]
    ensures Fields(r, req.addr.host, Decimal(req.addr.port), Decimal(|req.rest|))
  {
    var h, p, n := req.addr.host, Decimal(req.addr.port), Decimal(|req.rest|);
    var r := [LT] + h + [SPACE] + p + [SPACE] + n + [UNIT_B, GT];
    assert r[1..1 + |h|] == h;
    assert r[2 + |h|..2 + |h| + |p|] == p;
    assert r[3 + |h| + |p|..|r| - 2] == n;
    r
  }

  /** The three fields of the rendering of a request, each followed by its
      delimiter. */
  predicate Fields(r: seq<byte>, h: seq<byte>, p: seq<byte>, n: seq<byte>)
  {
    && |r| == |h| + |p| + |n| + 5
    && r[1..1 + |h|] == h && r[1 + |h|] == SPACE
    && r[2 + |h|..2 + |h| + |p|] == p && r[2 + |h| + |p|] == SPACE
    && r[3 + |h| + |p|..|r| - 2] == n
  }

  /** The port and the size of rest read back from their places in the
      rendering. */
  lemma StrReadsBack(req: ProxyRequest)
    ensures var r, h, p := Str(req), req.addr.host, Decimal(req.addr.port);
      && r[1..1 + |h|] == h
      && ParseDecimal(r[2 + |h|..2 + |h| + |p|]) == req.addr.port
      && ParseDecimal(r[3 + |h| + |p|..|r| - 2]) == |req.rest|
  {
    ParseDecimalOfDecimal(req.addr.port);
    ParseDecimalOfDecimal(|req.rest|);
  }

  /** ProxyRequest.from_acceptor, once acceptor.accept() has returned
      `stream` and recorded `addr`: the whole pending buffer becomes rest
      and the stream is left with nothing pending. */
  method FromAcceptor(addr: Address, stream: Stream) returns (req: ProxyRequest)
    modifies stream`toRead
    ensures req == ProxyRequest(addr, old(stream.toRead))
    ensures stream.St() == State([], old(stream.source))
    ensures Unconsumed(old(stream.St())) == req.rest + Unconsumed(stream.St())
  {
    var rest := stream.Pop();
    req := ProxyRequest(addr, rest);
  }
}
