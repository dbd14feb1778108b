/** The request hand-off of p3/iobox/inbox.py. An inbox's accept_primitive
    runs an acceptor chain and returns the stream with a ProxyRequest (see
    Proxy.FromAcceptor); Inbox.accept then makes sure the request carries
    at least one byte of payload, and InboxWrappedAcceptor turns the inbox
    back into an acceptor by pushing that payload onto the stream again. */
module Inboxes {
  import opened Bytes
  import opened Errors
  import opened Addresses
  import opened Streams
  import opened Proxy

  /** The top-up inside Inbox.accept: with ensure_rest and an empty rest,
      rest becomes readatleast(1); otherwise nothing is read. No byte is
      lost or reordered: rest followed by the stream is the same before and
      after. */
  function TopUpOf(ensureRest: bool, req: ProxyRequest, st: State): (res: (Result<ProxyRequest>, State))
    ensures res.0.Ok? ==> res.0.value.addr == req.addr
    ensures res.0.Ok? && ensureRest ==> |res.0.value.rest| > 0
    ensures !ensureRest || req.rest != [] ==> res == (Ok(req), st)
    ensures res.0.Ok? ==> req.rest + Unconsumed(st) == res.0.value.rest + Unconsumed(res.1)
    ensures res.0.Err? ==> res.0.error in {IncompleteRead, LimitOverrun}
  {
    if ensureRest && |req.rest| == 0 then
      var r := AtLeastOf(1, st);
      if r.0.Err? then (Err(r.0.error), r.1) else (Ok(ProxyRequest(req.addr, r.0.value)), r.1)
    else (Ok(req), st)
  }

  /** The pop in from_acceptor, the top-up and the push in
      InboxWrappedAcceptor.accept together hand on every byte the stream
      held after the handshake, in order; when no top-up read happens the
      stream is restored exactly. */
  lemma HandOffRestores(ensureRest: bool, addr: Address, st: State)
    ensures var t := TopUpOf(ensureRest, ProxyRequest(addr, st.pending), State([], st.chunks));
      && (t.0.Ok? ==> Unconsumed(Pushed(t.0.value.rest, t.1)) == Unconsumed(st))
      && (!ensureRest || st.pending != [] ==> Pushed(t.0.value.rest, t.1) == st)
  {
    var popped := State([], st.chunks);
    assert Unconsumed(st) == st.pending + Unconsumed(popped);
    assert st.pending + [] == st.pending;
  }

  class Inbox {
    /** The ensure_rest class attribute; True unless a subclass says
        otherwise. */
    const ensureRest: bool

    constructor (ensureRest: bool)
      ensures this.ensureRest == ensureRest
    {
      this.ensureRest := ensureRest;
    }

    /** accept, given what accept_primitive returned: the top-up runs inside
        stream.cm(exc_only=True), so a failed read closes the whole chain
        under the stream and is passed on. */
    method Accept(stream: Stream, req: ProxyRequest, ghost layers: seq<Stream>) returns (r: Result<(Stream, ProxyRequest)>)
      requires stream.IsChain(layers)
      modifies layers
      ensures var t := TopUpOf(ensureRest, req, old(stream.St()));
        && r == (if t.0.Ok? then Ok((stream, t.0.value)) else Err(t.0.error))
        && stream.St() == t.1
        && stream.written == old(stream.written)
      ensures forall i :: 0 <= i < |layers| ==>
        layers[i].closeCalls == old(layers[i].closeCalls) + (if r.Err? then 1 else 0)
      ensures forall i :: 1 <= i < |layers| ==> layers[i].View() == old(layers[i].View())
    {
      var res: Result<(Stream, ProxyRequest)> := Ok((stream, req));
      if ensureRest && |req.rest| == 0 {
        var more := stream.ReadAtLeast(1);
        res := if more.Ok? then Ok((stream, ProxyRequest(req.addr, more.value))) else Err(more.error);
      }
      r := stream.CmExit(res, true, layers);
    }
  }

  class InboxWrappedAcceptor {
    const inbox: Inbox
    var addr: Address

    constructor (inbox: Inbox)
      ensures this.inbox == inbox
    {
      this.inbox := inbox;
      addr := Address([], 0);
    }

    /** accept, given what the inbox's accept_primitive returned: addr is
        copied from the request and a non-empty rest is pushed back, so the
        next read of the stream yields it first. */
    method Accept(stream: Stream, req: ProxyRequest, ghost layers: seq<Stream>) returns (r: Result<Stream>)
      requires stream.IsChain(layers)
      modifies this`addr, layers
      ensures var t := TopUpOf(inbox.ensureRest, req, old(stream.St()));
        && (t.0.Ok? ==> r == Ok(stream) && addr == req.addr && stream.St() == Pushed(t.0.value.rest, t.1))
        && (t.0.Err? ==> r == Err(t.0.error) && addr == old(addr) && stream.St() == t.1)
        && stream.written == old(stream.written)
      ensures forall i :: 0 <= i < |layers| ==>
        layers[i].closeCalls == old(layers[i].closeCalls) + (if r.Err? then 1 else 0)
      ensures forall i :: 1 <= i < |layers| ==> layers[i].View() == old(layers[i].View())
    {
      var a := inbox.Accept(stream, req, layers);
      if a.Err? {
        return Err(a.error);
      }
      var (s, q) := a.value;
      addr := q.addr;
      if |q.rest| != 0 {
        s.Push(q.rest);
      }
      r := Ok(s);
    }
  }
}
