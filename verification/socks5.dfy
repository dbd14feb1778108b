/** SOCKS5 (RFC 1928) as p3/contrib/basic/socks5.py implements it: the
    address field of section 5, the method-selection messages of section 3,
    the request of section 4 and the reply of section 6, each with a pure
    encoder and a decoder that consumes from a stream; then the server
    handshake (Socks5Acceptor) and the client handshake (Socks5Connector).

    The stream helpers readB, readH and read_struct(S) of p3 read exactly
    1, 2 and S.size bytes (ReadByteOf, ReadUint16Of, ExactlyOf). The enum
    checks of p3 (`Socks5Ver.V5.ensure(v)`, `Socks5Cmd(v)`, ...) are
    modelled as failing with a protocol error naming the field. */
module Socks5 {
  import opened Bytes
  import opened Errors
  import opened Addresses
  import opened Streams

  const VER5: byte := 5
  const RSV_ZERO: byte := 0
  const NO_AUTHENTICATION_REQUIRED: byte := 0
  const CMD_CONNECT: byte := 1
  const REP_SUCCEEDED: byte := 0

  /** Socks5AuthMethod: the four method codes the enum names. */
  predicate IsAuthMethod(b: byte)
  {
    b == 0 || b == 1 || b == 2 || b == 0xff
  }

  /** Socks5Cmd: CONNECT, BIND, UDP ASSOCIATE. */
  predicate IsCmd(b: byte)
  {
    1 <= b <= 3
  }

  /** Socks5Rep: succeeded through address type not supported. */
  predicate IsRep(b: byte)
  {
    b <= 8
  }

  datatype Atyp = IPV4 | DOMAINNAME | IPV6

  function AtypCode(a: Atyp): byte
  {
    match a
    case IPV4 => 1
    case DOMAINNAME => 3
    case IPV6 => 4
  }

  /** Socks5Atyp(b): the address type a code names, if any. */
  function AtypOf(b: byte): (r: Option<Atyp>)
    ensures r.Some? <==> b == 1 || b == 3 || b == 4
    ensures r.Some? ==> AtypCode(r.value) == b
    ensures forall a: Atyp :: AtypCode(a) == b ==> r == Some(a)
  {
    if b == 1 then Some(IPV4) else if b == 3 then Some(DOMAINNAME) else if b == 4 then Some(IPV6) else None
  }

  /** Raw host length of an IP address type. */
  function IpSize(a: Atyp): nat
    requires a != DOMAINNAME
  {
    if a == IPV4 then 4 else 16
  }

  datatype Socks5Addr = Socks5Addr(atyp: Atyp, addr: Address)

  /** What __bytes__ accepts: a domain name fits its one-byte length, an IP
      host has its raw size, the port fits two bytes. */
  predicate Encodable(a: Socks5Addr)
  {
    && a.addr.port < 0x1_0000
    && (if a.atyp == DOMAINNAME then |a.addr.host| <= 0xff else |a.addr.host| == IpSize(a.atyp))
  }

  /** The bytes of an address after its type code: [length,] host, port. */
  function AddrBody(a: Socks5Addr): (r: seq<byte>)
    requires Encodable(a)
  {
    (if a.atyp == DOMAINNAME then [|a.addr.host| as byte] else []) + a.addr.host + Pack16(a.addr.port as uint16)
  }

  /** Socks5Addr.__bytes__: atyp, then [length,] host, then the port
      big-endian; a name longer than 255 bytes or a port that does not fit
      is a struct error, an IP host of the wrong size is refused. */
  function EncodeAddr(a: Socks5Addr): (r: Result<seq<byte>>)
    ensures r.Ok? <==> Encodable(a)
    ensures r.Ok? ==> r.value == [AtypCode(a.atyp)] + AddrBody(a)
  {
    var host, port := a.addr.host, a.addr.port;
    match a.atyp
    case DOMAINNAME =>
      if |host| > 0xff then Err(StructError)
      else if port >= 0x1_0000 then Err(StructError)
      else Ok([AtypCode(DOMAINNAME), |host| as byte] + host + Pack16(port as uint16))
    case IPV4 =>
      if |host| != 4 then Err(InvalidAddress)
      else if port >= 0x1_0000 then Err(StructError)
      else Ok([AtypCode(IPV4)] + host + Pack16(port as uint16))
    case IPV6 =>
      if |host| != 16 then Err(InvalidAddress)
      else if port >= 0x1_0000 then Err(StructError)
      else Ok([AtypCode(IPV6)] + host + Pack16(port as uint16))
  }

  /** readB */
  function ReadByteOf(st: State): (res: (Result<byte>, State))
    ensures res.0.Ok? ==> Unconsumed(st) == [res.0.value] + Unconsumed(res.1)
  {
    var r := ExactlyOf(1, st);
    if r.0.Err? then (Err(r.0.error), r.1) else (Ok(r.0.value[0]), r.1)
  }

  /** readH */
  function ReadUint16Of(st: State): (res: (Result<uint16>, State))
    ensures res.0.Ok? ==> Unconsumed(st) == Pack16(res.0.value) + Unconsumed(res.1)
  {
    var r := ExactlyOf(2, st);
    if r.0.Err? then (Err(r.0.error), r.1)
    else
      Pack16Unpack16(r.0.value);
      (Ok(Unpack16(r.0.value)), r.1)
  }

  lemma ReadByteTame(st: State)
    requires Tame(st) && |Unconsumed(st)| >= 1
    ensures ReadByteOf(st).0 == Ok(Unconsumed(st)[0])
    ensures Unconsumed(ReadByteOf(st).1) == Unconsumed(st)[1..] && Tame(ReadByteOf(st).1)
  {
    ExactlyTame(1, st);
  }

  lemma ReadUint16Tame(st: State)
    requires Tame(st) && |Unconsumed(st)| >= 2
    ensures ReadUint16Of(st).0.Ok? && Pack16(ReadUint16Of(st).0.value) == Unconsumed(st)[..2]
    ensures Unconsumed(ReadUint16Of(st).1) == Unconsumed(st)[2..] && Tame(ReadUint16Of(st).1)
  {
    ExactlyTame(2, st);
  }

  /** The DOMAINNAME branch of read_from_stream: readB for the length,
      readexactly for the name, readH for the port. */
  function ReadDomainOf(st: State): (res: (Result<Socks5Addr>, State))
    ensures res.0.Ok? ==> res.0.value.atyp == DOMAINNAME && Encodable(res.0.value)
    ensures res.0.Ok? ==> Unconsumed(st) == AddrBody(res.0.value) + Unconsumed(res.1)
  {
    var l := ReadByteOf(st);
    if l.0.Err? then (Err(l.0.error), l.1)
    else
      var h := ExactlyOf(l.0.value as nat, l.1);
      if h.0.Err? then (Err(h.0.error), h.1)
      else
        var p := ReadUint16Of(h.1);
        if p.0.Err? then (Err(p.0.error), p.1)
        else
          var a := Socks5Addr(DOMAINNAME, Address(h.0.value, p.0.value as nat));
          DomainConsumed(l.0.value, h.0.value, p.0.value, Unconsumed(st), Unconsumed(l.1), Unconsumed(h.1), Unconsumed(p.1));
          (Ok(a), p.1)
  }

  /** The three reads of the domain branch consumed the address body. */
  lemma DomainConsumed(l: byte, host: seq<byte>, port: uint16, u0: seq<byte>, u1: seq<byte>, u2: seq<byte>, u3: seq<byte>)
    requires |host| == l as nat
    requires u0 == [l] + u1 && u1 == host + u2 && u2 == Pack16(port) + u3
    ensures var a := Socks5Addr(DOMAINNAME, Address(host, port as nat));
      Encodable(a) && u0 == AddrBody(a) + u3
  {
    var a := Socks5Addr(DOMAINNAME, Address(host, port as nat));
    assert AddrBody(a) == [l] + host + Pack16(port);
  }

  /** Which version of an IP address branch the decoder runs: the code as
      written, or its correction. */
  datatype Variant = AsWritten | Corrected

  /** The corrected IPV4 / IPV6 branches, reading the raw host and the port
      in one struct of 6 / 18 bytes. */
  function ReadIpOf(atyp: Atyp, st: State): (res: (Result<Socks5Addr>, State))
    requires atyp != DOMAINNAME
    ensures res.0.Ok? ==> res.0.value.atyp == atyp && Encodable(res.0.value)
    ensures res.0.Ok? ==> Unconsumed(st) == AddrBody(res.0.value) + Unconsumed(res.1)
  {
    var size := IpSize(atyp);
    var s := ExactlyOf(size + 2, st);
    if s.0.Err? then (Err(s.0.error), s.1)
    else
      var v := s.0.value;
      IpFields(atyp, v);
      (Ok(Socks5Addr(atyp, Address(v[..size], Unpack16(v[size..]) as nat))), s.1)
  }

  /** The struct of the IP branches is the address body of its fields. */
  lemma IpFields(atyp: Atyp, v: seq<byte>)
    requires atyp != DOMAINNAME && |v| == IpSize(atyp) + 2
    ensures var a := Socks5Addr(atyp, Address(v[..IpSize(atyp)], Unpack16(v[IpSize(atyp)..]) as nat));
      Encodable(a) && AddrBody(a) == v
  {
    var size := IpSize(atyp);
    Pack16Unpack16(v[size..]);
    assert v == v[..size] + v[size..];
  }

  /** The IPV4 / IPV6 branches as written: read_struct(IPv4Struct) /
      read_struct(IPv6Struct), whose formats '!B4sH' / '!B16sH' repeat the
      atyp byte, read 7 / 19 bytes and unpack three values into two names,
      which raises once the bytes are there. */
  function ReadIpAsWrittenOf(atyp: Atyp, st: State): (res: (Result<Socks5Addr>, State))
    requires atyp != DOMAINNAME
    ensures res.0.Err?
    ensures ExactlyOf(1 + IpSize(atyp) + 2, st).0.Ok? ==> res.0 == Err(TooManyValues)
  {
    var s := ExactlyOf(1 + IpSize(atyp) + 2, st);
    if s.0.Err? then (Err(s.0.error), s.1) else (Err(TooManyValues), s.1)
  }

  /** The branch of read_from_stream for address type atyp, the IP
      branches as the variant has them. */
  function ReadAddrBody(v: Variant, atyp: Atyp, st: State): (res: (Result<Socks5Addr>, State))
    ensures res.0.Ok? ==> res.0.value.atyp == atyp && Encodable(res.0.value)
    ensures res.0.Ok? ==> Unconsumed(st) == AddrBody(res.0.value) + Unconsumed(res.1)
    ensures v == AsWritten && res.0.Ok? ==> atyp == DOMAINNAME
  {
    if atyp == DOMAINNAME then ReadDomainOf(st)
    else if v == Corrected then ReadIpOf(atyp, st)
    else ReadIpAsWrittenOf(atyp, st)
  }

  /** Socks5Addr.read_from_stream: readB for the type, then its branch, the
      IP branches as the variant has them. A successful decode consumed
      exactly the encoding of what it returns; as written only a DOMAINNAME
      address can decode. */
  function ReadAddrOf(v: Variant, st: State): (res: (Result<Socks5Addr>, State))
    ensures res.0.Ok? ==> EncodeAddr(res.0.value).Ok?
    ensures res.0.Ok? ==> Unconsumed(st) == EncodeAddr(res.0.value).value + Unconsumed(res.1)
    ensures v == AsWritten && res.0.Ok? ==> res.0.value.atyp == DOMAINNAME
  {
    var t := ReadByteOf(st);
    if t.0.Err? then (Err(t.0.error), t.1)
    else
      match AtypOf(t.0.value)
      case None => (Err(Protocol("socks5", "atyp")), t.1)
      case Some(atyp) =>
        var b := ReadAddrBody(v, atyp, t.1);
        if b.0.Err? then b
        else
          AddrEncoding(b.0.value, Unconsumed(st), Unconsumed(t.1), Unconsumed(b.1));
          b
  }

  /** The type code followed by the address body is the encoding. */
  lemma AddrEncoding(a: Socks5Addr, u0: seq<byte>, u1: seq<byte>, u2: seq<byte>)
    requires Encodable(a)
    requires u0 == [AtypCode(a.atyp)] + u1 && u1 == AddrBody(a) + u2
    ensures EncodeAddr(a).Ok? && u0 == EncodeAddr(a).value + u2
  {
  }

  lemma ReadDomainRoundTrip(a: Socks5Addr, tail: seq<byte>, st: State)
    requires Encodable(a) && a.atyp == DOMAINNAME
    requires Tame(st) && Unconsumed(st) == AddrBody(a) + tail
    ensures ReadDomainOf(st).0 == Ok(a)
    ensures Unconsumed(ReadDomainOf(st).1) == tail && Tame(ReadDomainOf(st).1)
  {
    var n := |a.addr.host|;
    var pk := Pack16(a.addr.port as uint16);
    assert Unconsumed(st) == [n as byte] + (a.addr.host + (pk + tail));
    ReadByteTame(st);
    var l := ReadByteOf(st);
    ExactlyTame(n, l.1);
    var h := ExactlyOf(n, l.1);
    assert h.0 == Ok(a.addr.host);
    ReadUint16Tame(h.1);
    var p := ReadUint16Of(h.1);
    assert Pack16(p.0.value) == pk;
    Unpack16Pack16(p.0.value);
    Unpack16Pack16(a.addr.port as uint16);
  }

  lemma ReadIpRoundTrip(a: Socks5Addr, tail: seq<byte>, st: State)
    requires Encodable(a) && a.atyp != DOMAINNAME
    requires Tame(st) && Unconsumed(st) == AddrBody(a) + tail
    ensures ReadIpOf(a.atyp, st).0 == Ok(a)
    ensures Unconsumed(ReadIpOf(a.atyp, st).1) == tail && Tame(ReadIpOf(a.atyp, st).1)
  {
    var size := IpSize(a.atyp);
    ExactlyTame(size + 2, st);
    var v := ExactlyOf(size + 2, st).0.value;
    assert v == AddrBody(a);
    assert v[..size] == a.addr.host && v[size..] == Pack16(a.addr.port as uint16);
    Unpack16Pack16(a.addr.port as uint16);
  }

  /** Decoding an encoded address on a tame stream yields the same address
      and leaves exactly the bytes behind it: for every address with the
      corrected decoder, for a DOMAINNAME address with either. */
  lemma ReadAddrRoundTrip(v: Variant, a: Socks5Addr, tail: seq<byte>, st: State)
    requires Encodable(a) && (v == Corrected || a.atyp == DOMAINNAME)
    requires Tame(st) && Unconsumed(st) == EncodeAddr(a).value + tail
    ensures ReadAddrOf(v, st).0 == Ok(a)
    ensures Unconsumed(ReadAddrOf(v, st).1) == tail && Tame(ReadAddrOf(v, st).1)
  {
    assert Unconsumed(st) == [AtypCode(a.atyp)] + (AddrBody(a) + tail);
    ReadByteTame(st);
    var t := ReadByteOf(st);
    if a.atyp == DOMAINNAME {
      ReadDomainRoundTrip(a, tail, t.1);
    } else {
      ReadIpRoundTrip(a, tail, t.1);
    }
  }

  /** As written, an IPv4 or IPv6 address never decodes, even from its own
      encoding on a tame stream: the 7 / 19-byte struct runs one byte past
      the address, so the read fails at the end of the stream and the
      unpacking fails otherwise. The corrected decoder returns the address. */
  lemma ReadAddrAsWrittenRejectsIp(a: Socks5Addr, tail: seq<byte>, st: State)
    requires Encodable(a) && a.atyp != DOMAINNAME
    requires Tame(st) && Unconsumed(st) == EncodeAddr(a).value + tail
    ensures ReadAddrOf(AsWritten, st).0 == Err(if tail == [] then IncompleteRead else TooManyValues)
    ensures ReadAddrOf(Corrected, st).0 == Ok(a)
  {
    ReadAddrRoundTrip(Corrected, a, tail, st);
    ReadByteTame(st);
    var t := ReadByteOf(st);
    var n := 1 + IpSize(a.atyp) + 2;
    assert |Unconsumed(t.1)| == n - 1 + |tail|;
    if tail == [] {
      AtLeastIncomplete(n, t.1);
    } else {
      ExactlyTame(n, t.1);
    }
  }

  /** The smallest case of the above: 1.2.3.4 port 80 followed by one byte. */
  lemma ReadAddrAsWrittenExample()
    ensures ReadAddrOf(AsWritten, State([1, 1, 2, 3, 4, 0, 80, 0], [])).0 == Err(TooManyValues)
    ensures ReadAddrOf(Corrected, State([1, 1, 2, 3, 4, 0, 80, 0], [])).0 == Ok(Socks5Addr(IPV4, Address([1, 2, 3, 4], 80)))
  {
    var a := Socks5Addr(IPV4, Address([1, 2, 3, 4], 80));
    assert EncodeAddr(a).value == [1, 1, 2, 3, 4, 0, 80];
    ReadAddrAsWrittenRejectsIp(a, [0], State([1, 1, 2, 3, 4, 0, 80, 0], []));
  }

  // ---------------------------------------------------------------------
  // Method selection (RFC 1928, section 3)

  datatype AuthRequest = AuthRequest(methods: seq<byte>)

  /** Socks5AuthRequest.__bytes__: VER, NMETHODS, METHODS. */
  function EncodeAuthRequest(req: AuthRequest): (r: Result<seq<byte>>)
    ensures r.Ok? <==> |req.methods| <= 0xff
    ensures r.Ok? ==> r.value == [VER5, |req.methods| as byte] + req.methods
  {
    if |req.methods| > 0xff then Err(StructError)
    else Ok([VER5, |req.methods| as byte] + req.methods)
  }

  /** Socks5AuthRequest.read_from_stream. A success consumed exactly the
      encoding of what it returns, which offers at least one method. */
  function ReadAuthRequestOf(st: State): (res: (Result<AuthRequest>, State))
    ensures res.0.Ok? ==> 0 < |res.0.value.methods| <= 0xff
    ensures res.0.Ok? ==> Unconsumed(st) == EncodeAuthRequest(res.0.value).value + Unconsumed(res.1)
  {
    var h := ExactlyOf(2, st);
    if h.0.Err? then (Err(h.0.error), h.1)
    else
      var ver, nmethods := h.0.value[0], h.0.value[1];
      if ver != VER5 then (Err(Protocol("socks5", "ver")), h.1)
      else if nmethods == 0 then (Err(Protocol("socks5", "auth/methods")), h.1)
      else
        var m := ExactlyOf(nmethods as nat, h.1);
        if m.0.Err? then (Err(m.0.error), m.1)
        else
          assert Unconsumed(st) == [ver, nmethods] + m.0.value + Unconsumed(m.1) by {
            assert h.0.value == [ver, nmethods];
          }
          (Ok(AuthRequest(m.0.value)), m.1)
  }

  lemma AuthRequestRoundTrip(req: AuthRequest, tail: seq<byte>, st: State)
    requires 0 < |req.methods| <= 0xff
    requires Tame(st) && Unconsumed(st) == EncodeAuthRequest(req).value + tail
    ensures ReadAuthRequestOf(st).0 == Ok(req)
    ensures Unconsumed(ReadAuthRequestOf(st).1) == tail && Tame(ReadAuthRequestOf(st).1)
  {
    var n := |req.methods|;
    assert Unconsumed(st) == [VER5, n as byte] + (req.methods + tail);
    ExactlyTame(2, st);
    var h := ExactlyOf(2, st);
    assert h.0.value == [VER5, n as byte];
    ExactlyTame(n, h.1);
    assert (req.methods + tail)[..n] == req.methods;
  }

  /** The version byte must be 5 and the method count non-zero. */
  lemma AuthRequestRejects(st: State)
    requires Tame(st) && |Unconsumed(st)| >= 2
    requires Unconsumed(st)[0] != VER5 || Unconsumed(st)[1] == 0
    ensures ReadAuthRequestOf(st).0.Err?
  {
    ExactlyTame(2, st);
  }

  datatype AuthReply = AuthReply(selected: byte)

  /** Socks5AuthReply.__bytes__: VER, METHOD. */
  function EncodeAuthReply(rep: AuthReply): (r: seq<byte>)
  {
    [VER5, rep.selected]
  }

  /** Socks5AuthReply.read_from_stream: version 5 and a known method. */
  function ReadAuthReplyOf(st: State): (res: (Result<AuthReply>, State))
    ensures res.0.Ok? ==> IsAuthMethod(res.0.value.selected)
    ensures res.0.Ok? ==> Unconsumed(st) == EncodeAuthReply(res.0.value) + Unconsumed(res.1)
  {
    var h := ExactlyOf(2, st);
    if h.0.Err? then (Err(h.0.error), h.1)
    else
      var ver, selected := h.0.value[0], h.0.value[1];
      if ver != VER5 then (Err(Protocol("socks5", "ver")), h.1)
      else if !IsAuthMethod(selected) then (Err(Protocol("socks5", "method")), h.1)
      else
        assert h.0.value == [ver, selected];
        (Ok(AuthReply(selected)), h.1)
  }

  lemma AuthReplyRoundTrip(rep: AuthReply, tail: seq<byte>, st: State)
    requires IsAuthMethod(rep.selected)
    requires Tame(st) && Unconsumed(st) == EncodeAuthReply(rep) + tail
    ensures ReadAuthReplyOf(st).0 == Ok(rep)
    ensures Unconsumed(ReadAuthReplyOf(st).1) == tail && Tame(ReadAuthReplyOf(st).1)
  {
    ExactlyTame(2, st);
    assert Unconsumed(st)[..2] == EncodeAuthReply(rep);
  }

  // ---------------------------------------------------------------------
  // Requests (section 4) and replies (section 6)

  datatype Request = Request(cmd: byte, dst: Socks5Addr)
  datatype Reply = Reply(rep: byte, bnd: Socks5Addr)

  /** Socks5Request.__bytes__: VER, CMD, RSV = 0, then the address. */
  function EncodeRequest(req: Request): (r: Result<seq<byte>>)
    ensures r.Ok? <==> Encodable(req.dst)
    ensures r.Ok? ==> r.value == [VER5, req.cmd, RSV_ZERO] + EncodeAddr(req.dst).value
  {
    var a := EncodeAddr(req.dst);
    if a.Err? then Err(a.error) else Ok([VER5, req.cmd, RSV_ZERO] + a.value)
  }

  /** Socks5Reply.__bytes__: VER, REP, RSV = 0, then the address. */
  function EncodeReply(rep: Reply): (r: Result<seq<byte>>)
    ensures r.Ok? <==> Encodable(rep.bnd)
    ensures r.Ok? ==> r.value == [VER5, rep.rep, RSV_ZERO] + EncodeAddr(rep.bnd).value
  {
    var a := EncodeAddr(rep.bnd);
    if a.Err? then Err(a.error) else Ok([VER5, rep.rep, RSV_ZERO] + a.value)
  }

  /** The three-byte head shared by requests and replies: version 5, a code
      that `isCode` accepts, reserved byte 0. */
  function ReadHeadOf(st: State, codeName: string, isCode: byte -> bool): (res: (Result<byte>, State))
    ensures res.0.Ok? ==> isCode(res.0.value)
    ensures res.0.Ok? ==> Unconsumed(st) == [VER5, res.0.value, RSV_ZERO] + Unconsumed(res.1)
  {
    var h := ExactlyOf(3, st);
    if h.0.Err? then (Err(h.0.error), h.1)
    else
      var ver, code, rsv := h.0.value[0], h.0.value[1], h.0.value[2];
      if ver != VER5 then (Err(Protocol("socks5", "ver")), h.1)
      else if rsv != RSV_ZERO then (Err(Protocol("socks5", "rsv")), h.1)
      else if !isCode(code) then (Err(Protocol("socks5", codeName)), h.1)
      else
        assert h.0.value == [ver, code, rsv];
        (Ok(code), h.1)
  }

  /** A head followed by an address encoding consumed both, in order. */
  lemma HeadThenAddr(code: byte, enc: seq<byte>, u0: seq<byte>, u1: seq<byte>, u2: seq<byte>)
    requires u0 == [VER5, code, RSV_ZERO] + u1 && u1 == enc + u2
    ensures u0 == [VER5, code, RSV_ZERO] + enc + u2
  {
  }

  /** Socks5Request.read_from_stream. */
  function ReadRequestOf(v: Variant, st: State): (res: (Result<Request>, State))
    ensures res.0.Ok? ==> IsCmd(res.0.value.cmd) && EncodeRequest(res.0.value).Ok?
    ensures res.0.Ok? ==> Unconsumed(st) == EncodeRequest(res.0.value).value + Unconsumed(res.1)
    ensures v == AsWritten && res.0.Ok? ==> res.0.value.dst.atyp == DOMAINNAME
  {
    var h := ReadHeadOf(st, "cmd", IsCmd);
    if h.0.Err? then (Err(h.0.error), h.1)
    else
      var a := ReadAddrOf(v, h.1);
      if a.0.Err? then (Err(a.0.error), a.1)
      else
        HeadThenAddr(h.0.value, EncodeAddr(a.0.value).value, Unconsumed(st), Unconsumed(h.1), Unconsumed(a.1));
        (Ok(Request(h.0.value, a.0.value)), a.1)
  }

  /** Socks5Reply.read_from_stream. */
  function ReadReplyOf(v: Variant, st: State): (res: (Result<Reply>, State))
    ensures res.0.Ok? ==> IsRep(res.0.value.rep) && EncodeReply(res.0.value).Ok?
    ensures res.0.Ok? ==> Unconsumed(st) == EncodeReply(res.0.value).value + Unconsumed(res.1)
    ensures v == AsWritten && res.0.Ok? ==> res.0.value.bnd.atyp == DOMAINNAME
  {
    var h := ReadHeadOf(st, "rep", IsRep);
    if h.0.Err? then (Err(h.0.error), h.1)
    else
      var a := ReadAddrOf(v, h.1);
      if a.0.Err? then (Err(a.0.error), a.1)
      else
        HeadThenAddr(h.0.value, EncodeAddr(a.0.value).value, Unconsumed(st), Unconsumed(h.1), Unconsumed(a.1));
        (Ok(Reply(h.0.value, a.0.value)), a.1)
  }

  lemma ReadHeadTame(st: State, codeName: string, isCode: byte -> bool, code: byte, tail: seq<byte>)
    requires isCode(code)
    requires Tame(st) && Unconsumed(st) == [VER5, code, RSV_ZERO] + tail
    ensures ReadHeadOf(st, codeName, isCode).0 == Ok(code)
    ensures Unconsumed(ReadHeadOf(st, codeName, isCode).1) == tail && Tame(ReadHeadOf(st, codeName, isCode).1)
  {
    ExactlyTame(3, st);
    assert Unconsumed(st)[..3] == [VER5, code, RSV_ZERO];
  }

  /** An encoded request reads back: every request with the corrected
      decoder, one for a DOMAINNAME destination with either. */
  lemma RequestRoundTrip(v: Variant, req: Request, tail: seq<byte>, st: State)
    requires IsCmd(req.cmd) && Encodable(req.dst) && (v == Corrected || req.dst.atyp == DOMAINNAME)
    requires Tame(st) && Unconsumed(st) == EncodeRequest(req).value + tail
    ensures ReadRequestOf(v, st).0 == Ok(req)
    ensures Unconsumed(ReadRequestOf(v, st).1) == tail && Tame(ReadRequestOf(v, st).1)
  {
    var e := EncodeAddr(req.dst).value;
    assert Unconsumed(st) == [VER5, req.cmd, RSV_ZERO] + (e + tail);
    ReadHeadTame(st, "cmd", IsCmd, req.cmd, e + tail);
    ReadAddrRoundTrip(v, req.dst, tail, ReadHeadOf(st, "cmd", IsCmd).1);
  }

  /** An encoded reply reads back, under the same conditions. */
  lemma ReplyRoundTrip(v: Variant, rep: Reply, tail: seq<byte>, st: State)
    requires IsRep(rep.rep) && Encodable(rep.bnd) && (v == Corrected || rep.bnd.atyp == DOMAINNAME)
    requires Tame(st) && Unconsumed(st) == EncodeReply(rep).value + tail
    ensures ReadReplyOf(v, st).0 == Ok(rep)
    ensures Unconsumed(ReadReplyOf(v, st).1) == tail && Tame(ReadReplyOf(v, st).1)
  {
    var e := EncodeAddr(rep.bnd).value;
    assert Unconsumed(st) == [VER5, rep.rep, RSV_ZERO] + (e + tail);
    ReadHeadTame(st, "rep", IsRep, rep.rep, e + tail);
    ReadAddrRoundTrip(v, rep.bnd, tail, ReadHeadOf(st, "rep", IsRep).1);
  }

  /** As written, a request for an IPv4 or IPv6 destination fails in its
      address, whatever its command. */
  lemma RequestAsWrittenRejectsIp(req: Request, tail: seq<byte>, st: State)
    requires IsCmd(req.cmd) && Encodable(req.dst) && req.dst.atyp != DOMAINNAME
    requires Tame(st) && Unconsumed(st) == EncodeRequest(req).value + tail
    ensures ReadRequestOf(AsWritten, st).0 == Err(if tail == [] then IncompleteRead else TooManyValues)
  {
    var e := EncodeAddr(req.dst).value;
    assert Unconsumed(st) == [VER5, req.cmd, RSV_ZERO] + (e + tail);
    ReadHeadTame(st, "cmd", IsCmd, req.cmd, e + tail);
    ReadAddrAsWrittenRejectsIp(req.dst, tail, ReadHeadOf(st, "cmd", IsCmd).1);
  }

  /** As written, a reply with an IPv4 or IPv6 bound address fails in its
      address, whatever its code. */
  lemma ReplyAsWrittenRejectsIp(rep: Reply, tail: seq<byte>, st: State)
    requires IsRep(rep.rep) && Encodable(rep.bnd) && rep.bnd.atyp != DOMAINNAME
    requires Tame(st) && Unconsumed(st) == EncodeReply(rep).value + tail
    ensures ReadReplyOf(AsWritten, st).0 == Err(if tail == [] then IncompleteRead else TooManyValues)
  {
    var e := EncodeAddr(rep.bnd).value;
    assert Unconsumed(st) == [VER5, rep.rep, RSV_ZERO] + (e + tail);
    ReadHeadTame(st, "rep", IsRep, rep.rep, e + tail);
    ReadAddrAsWrittenRejectsIp(rep.bnd, tail, ReadHeadOf(st, "rep", IsRep).1);
  }

  /** A request or reply whose version is not 5 or whose reserved byte is
      not 0 is refused. */
  lemma HeadRejects(v: Variant, st: State, codeName: string, isCode: byte -> bool)
    requires Tame(st) && |Unconsumed(st)| >= 3
    requires Unconsumed(st)[0] != VER5 || Unconsumed(st)[2] != RSV_ZERO
    ensures ReadHeadOf(st, codeName, isCode).0.Err?
    ensures ReadRequestOf(v, st).0.Err? && ReadReplyOf(v, st).0.Err?
  {
    ExactlyTame(3, st);
  }

  // ---------------------------------------------------------------------
  // Handshakes

  /** Socks5Acceptor.AUTH_REP: no authentication required. */
  const AUTH_REP: seq<byte> := [VER5, NO_AUTHENTICATION_REQUIRED]

  /** Socks5Acceptor.REP: succeeded, bound to 0.0.0.0 port 0. */
  const REP: seq<byte> := [VER5, REP_SUCCEEDED, RSV_ZERO, 1, 0, 0, 0, 0, 0, 0]

  /** Socks5Connector.AUTH_REQ: offers only "no authentication required". */
  const AUTH_REQ: seq<byte> := [VER5, 1, NO_AUTHENTICATION_REQUIRED]

  lemma FixedMessagesAreEncodings()
    ensures EncodeAuthReply(AuthReply(NO_AUTHENTICATION_REQUIRED)) == AUTH_REP
    ensures EncodeReply(Reply(REP_SUCCEEDED, Socks5Addr(IPV4, Address([0, 0, 0, 0], 0)))) == Ok(REP)
    ensures EncodeAuthRequest(AuthRequest([NO_AUTHENTICATION_REQUIRED])) == Ok(AUTH_REQ)
  {
    assert Pack16(0) == [0, 0];
    var bnd := Socks5Addr(IPV4, Address([0, 0, 0, 0], 0));
    assert AddrBody(bnd) == [0, 0, 0, 0] + [0, 0];
    assert EncodeAddr(bnd).value == [1, 0, 0, 0, 0, 0, 0];
    assert [VER5, REP_SUCCEEDED, RSV_ZERO] + [1, 0, 0, 0, 0, 0, 0] == REP;
    assert [VER5, 1] + [NO_AUTHENTICATION_REQUIRED] == AUTH_REQ;
  }

  /** Socks5Acceptor.dispatch_socks5 on the read side st. */
  function DispatchOf(v: Variant, st: State): (h: Handshake<Address>)
    ensures h.result.Ok? ==> h.writes == [AUTH_REP, REP]
    ensures h.writes == [] || h.writes == [AUTH_REP] || h.writes == [AUTH_REP, REP]
  {
    var areq := ReadAuthRequestOf(st);
    if areq.0.Err? then Handshake(Err(areq.0.error), [], areq.1)
    else if NO_AUTHENTICATION_REQUIRED !in areq.0.value.methods then
      Handshake(Err(Protocol("socks5", "auth/methods")), [], areq.1)
    else
      DispatchRequestOf(v, areq.1)
  }

  /** The part of dispatch_socks5 after the method is agreed: accept "no
      authentication", read the request and, for CONNECT, answer with the
      fixed success reply. Whatever happens, 05 00 has been written; the
      success reply is written exactly when the destination is accepted,
      and as written that destination is always a DOMAINNAME. */
  function DispatchRequestOf(v: Variant, st: State): (h: Handshake<Address>)
    ensures h.writes == (if h.result.Ok? then [AUTH_REP, REP] else [AUTH_REP])
    ensures h.result.Ok? <==> ReadRequestOf(v, st).0.Ok? && ReadRequestOf(v, st).0.value.cmd == CMD_CONNECT
    ensures h.result.Ok? ==> h.result.value == ReadRequestOf(v, st).0.value.dst.addr
    ensures v == AsWritten && h.result.Ok? ==> ReadRequestOf(v, st).0.value.dst.atyp == DOMAINNAME
  {
    var req := ReadRequestOf(v, st);
    if req.0.Err? then Handshake(Err(req.0.error), [AUTH_REP], req.1)
    else if req.0.value.cmd != CMD_CONNECT then Handshake(Err(Protocol("socks5", "cmd")), [AUTH_REP], req.1)
    else Handshake(Ok(req.0.value.dst.addr), [AUTH_REP, REP], req.1)
  }

  /** A client that offers "no authentication" and asks to CONNECT is
      answered with exactly 05 00 and the fixed success reply, its
      destination is recorded, and the bytes it sent after the request stay
      unread: with the corrected decoder for every destination, as written
      for a DOMAINNAME destination. */
  lemma DispatchAccepts(v: Variant, methods: seq<byte>, dst: Socks5Addr, tail: seq<byte>, st: State)
    requires 0 < |methods| <= 0xff && NO_AUTHENTICATION_REQUIRED in methods && Encodable(dst)
    requires v == Corrected || dst.atyp == DOMAINNAME
    requires Tame(st)
    requires Unconsumed(st) == EncodeAuthRequest(AuthRequest(methods)).value
                               + EncodeRequest(Request(CMD_CONNECT, dst)).value + tail
    ensures DispatchOf(v, st).result == Ok(dst.addr)
    ensures DispatchOf(v, st).writes == [AUTH_REP, REP]
    ensures Unconsumed(DispatchOf(v, st).after) == tail
  {
    var e1 := EncodeAuthRequest(AuthRequest(methods)).value;
    var e2 := EncodeRequest(Request(CMD_CONNECT, dst)).value;
    assert Unconsumed(st) == e1 + (e2 + tail);
    AuthRequestRoundTrip(AuthRequest(methods), e2 + tail, st);
    RequestRoundTrip(v, Request(CMD_CONNECT, dst), tail, ReadAuthRequestOf(st).1);
  }

  /** As written, a request for an IPv4 or IPv6 destination is refused
      after 05 00, whatever its command: the address cannot be decoded. */
  lemma DispatchAsWrittenRejectsIp(methods: seq<byte>, req: Request, tail: seq<byte>, st: State)
    requires 0 < |methods| <= 0xff && NO_AUTHENTICATION_REQUIRED in methods
    requires IsCmd(req.cmd) && Encodable(req.dst) && req.dst.atyp != DOMAINNAME
    requires Tame(st)
    requires Unconsumed(st) == EncodeAuthRequest(AuthRequest(methods)).value + EncodeRequest(req).value + tail
    ensures DispatchOf(AsWritten, st).result == Err(if tail == [] then IncompleteRead else TooManyValues)
    ensures DispatchOf(AsWritten, st).writes == [AUTH_REP]
  {
    var e1 := EncodeAuthRequest(AuthRequest(methods)).value;
    var e2 := EncodeRequest(req).value;
    assert Unconsumed(st) == e1 + (e2 + tail);
    AuthRequestRoundTrip(AuthRequest(methods), e2 + tail, st);
    RequestAsWrittenRejectsIp(req, tail, ReadAuthRequestOf(st).1);
  }

  /** A client that does not offer "no authentication" is refused before
      anything is written. */
  lemma DispatchRejectsAuth(v: Variant, methods: seq<byte>, tail: seq<byte>, st: State)
    requires 0 < |methods| <= 0xff && NO_AUTHENTICATION_REQUIRED !in methods
    requires Tame(st) && Unconsumed(st) == EncodeAuthRequest(AuthRequest(methods)).value + tail
    ensures DispatchOf(v, st).result.Err? && DispatchOf(v, st).writes == []
  {
    AuthRequestRoundTrip(AuthRequest(methods), tail, st);
  }

  /** Any command other than CONNECT is refused after the method reply, with
      the command error once the request decodes (see
      DispatchAsWrittenRejectsIp for the IP destinations as written). */
  lemma DispatchRejectsCommand(v: Variant, methods: seq<byte>, req: Request, tail: seq<byte>, st: State)
    requires 0 < |methods| <= 0xff && NO_AUTHENTICATION_REQUIRED in methods
    requires IsCmd(req.cmd) && req.cmd != CMD_CONNECT && Encodable(req.dst)
    requires v == Corrected || req.dst.atyp == DOMAINNAME
    requires Tame(st)
    requires Unconsumed(st) == EncodeAuthRequest(AuthRequest(methods)).value + EncodeRequest(req).value + tail
    ensures DispatchOf(v, st).result == Err(Protocol("socks5", "cmd"))
    ensures DispatchOf(v, st).writes == [AUTH_REP]
  {
    var e1 := EncodeAuthRequest(AuthRequest(methods)).value;
    var e2 := EncodeRequest(req).value;
    assert Unconsumed(st) == e1 + (e2 + tail);
    AuthRequestRoundTrip(AuthRequest(methods), e2 + tail, st);
    RequestRoundTrip(v, req, tail, ReadAuthRequestOf(st).1);
  }

  /** Socks5Connector.connect from the method reply on: the request always
      names the target as a DOMAINNAME and carries `rest` behind it, in one
      write. */
  function ConnectOf(v: Variant, target: Address, rest: seq<byte>, st: State): (h: Handshake<()>)
    ensures h.writes == [] || |h.writes| == 1
    ensures h.result.Ok? ==> ReadAuthReplyOf(st).0 == Ok(AuthReply(NO_AUTHENTICATION_REQUIRED))
  {
    var arep := ReadAuthReplyOf(st);
    if arep.0.Err? then Handshake(Err(arep.0.error), [], arep.1)
    else if arep.0.value.selected != NO_AUTHENTICATION_REQUIRED then
      Handshake(Err(Protocol("socks5", "method")), [], arep.1)
    else
      var req := EncodeRequest(Request(CMD_CONNECT, Socks5Addr(DOMAINNAME, target)));
      if req.Err? then Handshake(Err(req.error), [], arep.1)
      else
        assert req.value + [] == req.value;
        ConnectReplyOf(v, if |rest| != 0 then req.value + rest else req.value, arep.1)
  }

  /** A successful connect names the target as a DOMAINNAME and sends the
      request with `rest` behind it as its only write after AUTH_REQ. */
  lemma ConnectWrites(v: Variant, target: Address, rest: seq<byte>, st: State)
    ensures var h := ConnectOf(v, target, rest, st);
      h.result.Ok? ==>
        && Encodable(Socks5Addr(DOMAINNAME, target))
        && h.writes == [EncodeRequest(Request(CMD_CONNECT, Socks5Addr(DOMAINNAME, target))).value + rest]
  {
    var req := EncodeRequest(Request(CMD_CONNECT, Socks5Addr(DOMAINNAME, target)));
    if req.Ok? {
      assert req.value + [] == req.value;
    }
  }

  /** The part of connect after the request is built: write it, then read
      the reply and insist on "succeeded". */
  function ConnectReplyOf(v: Variant, data: seq<byte>, st: State): (h: Handshake<()>)
    requires |data| != 0
    ensures h.writes == [data]
    ensures h.result.Ok? <==> ReadReplyOf(v, st).0.Ok? && ReadReplyOf(v, st).0.value.rep == REP_SUCCEEDED
  {
    var rep := ReadReplyOf(v, st);
    if rep.0.Err? then Handshake(Err(rep.0.error), WriteLog(data), rep.1)
    else if rep.0.value.rep != REP_SUCCEEDED then Handshake(Err(Protocol("socks5", "rep")), WriteLog(data), rep.1)
    else Handshake(Ok(()), WriteLog(data), rep.1)
  }

  /** Against a server that selects "no authentication" and replies
      "succeeded", the connector succeeds and leaves the server's later
      bytes unread: with the corrected decoder whatever the bound address,
      as written when it is a DOMAINNAME. */
  lemma ConnectSucceeds(v: Variant, target: Address, rest: seq<byte>, bnd: Socks5Addr, tail: seq<byte>, st: State)
    requires |target.host| <= 0xff && target.port < 0x1_0000 && Encodable(bnd)
    requires v == Corrected || bnd.atyp == DOMAINNAME
    requires Tame(st)
    requires Unconsumed(st) == EncodeAuthReply(AuthReply(NO_AUTHENTICATION_REQUIRED))
                               + EncodeReply(Reply(REP_SUCCEEDED, bnd)).value + tail
    ensures ConnectOf(v, target, rest, st).result == Ok(())
    ensures Unconsumed(ConnectOf(v, target, rest, st).after) == tail
  {
    var e1 := EncodeAuthReply(AuthReply(NO_AUTHENTICATION_REQUIRED));
    var e2 := EncodeReply(Reply(REP_SUCCEEDED, bnd)).value;
    assert Unconsumed(st) == e1 + (e2 + tail);
    AuthReplyRoundTrip(AuthReply(NO_AUTHENTICATION_REQUIRED), e2 + tail, st);
    ReplyRoundTrip(v, Reply(REP_SUCCEEDED, bnd), tail, ReadAuthReplyOf(st).1);
  }

  /** A server that selects another method, or replies with a failure code,
      makes the connector fail. */
  lemma ConnectRejects(v: Variant, target: Address, rest: seq<byte>, selected: byte, rep: Reply, tail: seq<byte>, st: State)
    requires IsAuthMethod(selected) && IsRep(rep.rep) && Encodable(rep.bnd)
    requires selected != NO_AUTHENTICATION_REQUIRED || rep.rep != REP_SUCCEEDED
    requires Tame(st)
    requires Unconsumed(st) == EncodeAuthReply(AuthReply(selected)) + EncodeReply(rep).value + tail
    ensures ConnectOf(v, target, rest, st).result.Err?
  {
    var e2 := EncodeReply(rep).value;
    assert Unconsumed(st) == EncodeAuthReply(AuthReply(selected)) + (e2 + tail);
    AuthReplyRoundTrip(AuthReply(selected), e2 + tail, st);
    if v == AsWritten && rep.bnd.atyp != DOMAINNAME {
      ReplyAsWrittenRejectsIp(rep, tail, ReadAuthReplyOf(st).1);
    } else {
      ReplyRoundTrip(v, rep, tail, ReadAuthReplyOf(st).1);
    }
  }

  /** As written, the connector fails on every reply whose bound address is
      IPv4 or IPv6, "succeeded" included. */
  lemma ConnectAsWrittenRejectsIp(target: Address, rest: seq<byte>, rep: Reply, tail: seq<byte>, st: State)
    requires |target.host| <= 0xff && target.port < 0x1_0000
    requires IsRep(rep.rep) && Encodable(rep.bnd) && rep.bnd.atyp != DOMAINNAME
    requires Tame(st)
    requires Unconsumed(st) == EncodeAuthReply(AuthReply(NO_AUTHENTICATION_REQUIRED)) + EncodeReply(rep).value + tail
    ensures ConnectOf(AsWritten, target, rest, st).result == Err(if tail == [] then IncompleteRead else TooManyValues)
  {
    var e2 := EncodeReply(rep).value;
    assert Unconsumed(st) == EncodeAuthReply(AuthReply(NO_AUTHENTICATION_REQUIRED)) + (e2 + tail);
    AuthReplyRoundTrip(AuthReply(NO_AUTHENTICATION_REQUIRED), e2 + tail, st);
    ReplyAsWrittenRejectsIp(rep, tail, ReadAuthReplyOf(st).1);
  }

  /** The connector as written cannot complete a handshake with the
      acceptor: the acceptor's fixed REP is bound to an IPv4 address, so
      reading it back runs past the end of the reply. The corrected
      connector succeeds. */
  lemma ConnectAsWrittenFailsOnRep(target: Address, rest: seq<byte>)
    requires |target.host| <= 0xff && target.port < 0x1_0000
    ensures ConnectOf(AsWritten, target, rest, State([], [AUTH_REP, REP])).result == Err(IncompleteRead)
    ensures ConnectOf(Corrected, target, rest, State([], [AUTH_REP, REP])).result == Ok(())
  {
    var st := State([], [AUTH_REP, REP]);
    var bnd := Socks5Addr(IPV4, Address([0, 0, 0, 0], 0));
    FixedMessagesAreEncodings();
    assert Flatten([REP]) == REP + Flatten([]);
    assert Unconsumed(st) == AUTH_REP + REP + [];
    ConnectAsWrittenRejectsIp(target, rest, Reply(REP_SUCCEEDED, bnd), [], st);
    ConnectSucceeds(Corrected, target, rest, bnd, [], st);
  }

  // ---------------------------------------------------------------------
  // The decoders and handshakes on a live stream

  method ReadByte(stream: Stream) returns (r: Result<byte>)
    modifies stream`toRead, stream`source
    ensures (r, stream.St()) == ReadByteOf(old(stream.St()))
  {
    var b := stream.ReadExactly(1);
    if b.Err? {
      return Err(b.error);
    }
    r := Ok(b.value[0]);
  }

  method ReadUint16(stream: Stream) returns (r: Result<uint16>)
    modifies stream`toRead, stream`source
    ensures (r, stream.St()) == ReadUint16Of(old(stream.St()))
  {
    var b := stream.ReadExactly(2);
    if b.Err? {
      return Err(b.error);
    }
    r := Ok(Unpack16(b.value));
  }

  method ReadDomain(stream: Stream) returns (r: Result<Socks5Addr>)
    modifies stream`toRead, stream`source
    ensures (r, stream.St()) == ReadDomainOf(old(stream.St()))
  {
    var alen := ReadByte(stream);
    if alen.Err? {
      return Err(alen.error);
    }
    var host := stream.ReadExactly(alen.value as nat);
    if host.Err? {
      return Err(host.error);
    }
    var port := ReadUint16(stream);
    if port.Err? {
      return Err(port.error);
    }
    r := Ok(Socks5Addr(DOMAINNAME, Address(host.value, port.value as nat)));
  }

  method ReadIp(atyp: Atyp, stream: Stream) returns (r: Result<Socks5Addr>)
    requires atyp != DOMAINNAME
    modifies stream`toRead, stream`source
    ensures (r, stream.St()) == ReadIpOf(atyp, old(stream.St()))
  {
    var size := IpSize(atyp);
    var s := stream.ReadExactly(size + 2);
    if s.Err? {
      return Err(s.error);
    }
    r := Ok(Socks5Addr(atyp, Address(s.value[..size], Unpack16(s.value[size..]) as nat)));
  }

  method ReadIpAsWritten(atyp: Atyp, stream: Stream) returns (r: Result<Socks5Addr>)
    requires atyp != DOMAINNAME
    modifies stream`toRead, stream`source
    ensures (r, stream.St()) == ReadIpAsWrittenOf(atyp, old(stream.St()))
  {
    var s := stream.ReadExactly(1 + IpSize(atyp) + 2);
    if s.Err? {
      return Err(s.error);
    }
    r := Err(TooManyValues);
  }

  method ReadAddr(v: Variant, stream: Stream) returns (r: Result<Socks5Addr>)
    modifies stream`toRead, stream`source
    ensures (r, stream.St()) == ReadAddrOf(v, old(stream.St()))
  {
    var t := ReadByte(stream);
    if t.Err? {
      return Err(t.error);
    }
    var atyp := AtypOf(t.value);
    if atyp.None? {
      return Err(Protocol("socks5", "atyp"));
    }
    if atyp.value == DOMAINNAME {
      r := ReadDomain(stream);
    } else if v == Corrected {
      r := ReadIp(atyp.value, stream);
    } else {
      r := ReadIpAsWritten(atyp.value, stream);
    }
  }

  method ReadAuthRequest(stream: Stream) returns (r: Result<AuthRequest>)
    modifies stream`toRead, stream`source
    ensures (r, stream.St()) == ReadAuthRequestOf(old(stream.St()))
  {
    var h := stream.ReadExactly(2);
    if h.Err? {
      return Err(h.error);
    }
    var ver, nmethods := h.value[0], h.value[1];
    if ver != VER5 {
      return Err(Protocol("socks5", "ver"));
    }
    if nmethods == 0 {
      return Err(Protocol("socks5", "auth/methods"));
    }
    var m := stream.ReadExactly(nmethods as nat);
    if m.Err? {
      return Err(m.error);
    }
    r := Ok(AuthRequest(m.value));
  }

  method ReadAuthReply(stream: Stream) returns (r: Result<AuthReply>)
    modifies stream`toRead, stream`source
    ensures (r, stream.St()) == ReadAuthReplyOf(old(stream.St()))
  {
    var h := stream.ReadExactly(2);
    if h.Err? {
      return Err(h.error);
    }
    var ver, selected := h.value[0], h.value[1];
    if ver != VER5 {
      return Err(Protocol("socks5", "ver"));
    }
    if !IsAuthMethod(selected) {
      return Err(Protocol("socks5", "method"));
    }
    r := Ok(AuthReply(selected));
  }

  method ReadHead(stream: Stream, codeName: string, isCode: byte -> bool) returns (r: Result<byte>)
    modifies stream`toRead, stream`source
    ensures (r, stream.St()) == ReadHeadOf(old(stream.St()), codeName, isCode)
  {
    var h := stream.ReadExactly(3);
    if h.Err? {
      return Err(h.error);
    }
    var ver, code, rsv := h.value[0], h.value[1], h.value[2];
    if ver != VER5 {
      return Err(Protocol("socks5", "ver"));
    }
    if rsv != RSV_ZERO {
      return Err(Protocol("socks5", "rsv"));
    }
    if !isCode(code) {
      return Err(Protocol("socks5", codeName));
    }
    r := Ok(code);
  }

  method ReadRequest(v: Variant, stream: Stream) returns (r: Result<Request>)
    modifies stream`toRead, stream`source
    ensures (r, stream.St()) == ReadRequestOf(v, old(stream.St()))
  {
    var cmd := ReadHead(stream, "cmd", IsCmd);
    if cmd.Err? {
      return Err(cmd.error);
    }
    var dst := ReadAddr(v, stream);
    if dst.Err? {
      return Err(dst.error);
    }
    r := Ok(Request(cmd.value, dst.value));
  }

  method ReadReply(v: Variant, stream: Stream) returns (r: Result<Reply>)
    modifies stream`toRead, stream`source
    ensures (r, stream.St()) == ReadReplyOf(v, old(stream.St()))
  {
    var rep := ReadHead(stream, "rep", IsRep);
    if rep.Err? {
      return Err(rep.error);
    }
    var bnd := ReadAddr(v, stream);
    if bnd.Err? {
      return Err(bnd.error);
    }
    r := Ok(Reply(rep.value, bnd.value));
  }

  /** The server handshake. `variant` picks the address decoder: the
      repository's class is the AsWritten one. */
  class Socks5Acceptor {
    const variant: Variant
    var addr: Address

    constructor (variant: Variant)
      ensures this.variant == variant
    {
      this.variant := variant;
      addr := Address([], 0);
    }

    method DispatchSocks5(stream: Stream) returns (r: Result<()>)
      modifies this`addr, stream`toRead, stream`source, stream`written
      ensures var h := DispatchOf(variant, old(stream.St()));
        && r == (if h.result.Ok? then Ok(()) else Err(h.result.error))
        && stream.written == old(stream.written) + h.writes
        && stream.St() == h.after
        && addr == (if h.result.Ok? then h.result.value else old(addr))
    {
      var areq := ReadAuthRequest(stream);
      if areq.Err? {
        return Err(areq.error);
      }
      if NO_AUTHENTICATION_REQUIRED !in areq.value.methods {
        return Err(Protocol("socks5", "auth/methods"));
      }
      r := DispatchRequest(stream);
    }

    /** The request half of dispatch_socks5, once the method is agreed. */
    method DispatchRequest(stream: Stream) returns (r: Result<()>)
      modifies this`addr, stream`toRead, stream`source, stream`written
      ensures var h := DispatchRequestOf(variant, old(stream.St()));
        && r == (if h.result.Ok? then Ok(()) else Err(h.result.error))
        && stream.written == old(stream.written) + h.writes
        && stream.St() == h.after
        && addr == (if h.result.Ok? then h.result.value else old(addr))
    {
      stream.WriteDrain(AUTH_REP);
      var req := ReadRequest(variant, stream);
      if req.Err? {
        return Err(req.error);
      }
      if req.value.cmd != CMD_CONNECT {
        return Err(Protocol("socks5", "cmd"));
      }
      addr := req.value.dst.addr;
      stream.WriteDrain(REP);
      r := Ok(());
    }

    /** accept on the stream the inner acceptor produced; any failure closes
        the whole chain under it and is passed on. */
    method Accept(stream: Stream, ghost layers: seq<Stream>) returns (r: Result<Stream>)
      requires stream.IsChain(layers)
      modifies this`addr, layers
      ensures var h := DispatchOf(variant, old(stream.St()));
        && r == (if h.result.Ok? then Ok(stream) else Err(h.result.error))
        && stream.written == old(stream.written) + h.writes
        && stream.St() == h.after
        && addr == (if h.result.Ok? then h.result.value else old(addr))
      ensures forall i :: 0 <= i < |layers| ==>
        layers[i].closeCalls == old(layers[i].closeCalls) + (if r.Err? then 1 else 0)
      ensures forall i :: 1 <= i < |layers| ==> layers[i].View() == old(layers[i].View())
    {
      var o := DispatchSocks5(stream);
      assert forall i :: 1 <= i < |layers| ==> layers[i].View() == old(layers[i].View());
      var res := if o.Ok? then Ok(stream) else Err(o.error);
      r := stream.CmExit(res, true, layers);
    }
  }

  /** The client handshake. `variant` picks the address decoder for the
      reply: the repository's class is the AsWritten one. */
  class Socks5Connector {
    const variant: Variant
    const addr: Address

    /** ProxyConnector.__init__: the target is stored as given. */
    constructor (variant: Variant, addr: Address)
      ensures this.variant == variant && this.addr == addr
    {
      this.variant := variant;
      this.addr := addr;
    }

    /** connect(rest) on the stream of the inner connector. The inner
        connector is handed AUTH_REQ as its own `rest` and sends it as its
        first write, as a TCP connector does on connecting. */
    method Connect(stream: Stream, rest: seq<byte>, ghost layers: seq<Stream>) returns (r: Result<Stream>)
      requires stream.IsChain(layers)
      modifies layers
      ensures var h := ConnectOf(variant, addr, rest, old(stream.St()));
        && r == (if h.result.Ok? then Ok(stream) else Err(h.result.error))
        && stream.written == old(stream.written) + [AUTH_REQ] + h.writes
        && stream.St() == h.after
      ensures forall i :: 0 <= i < |layers| ==>
        layers[i].closeCalls == old(layers[i].closeCalls) + (if r.Err? then 1 else 0)
      ensures forall i :: 1 <= i < |layers| ==> layers[i].View() == old(layers[i].View())
    {
      var res := ConnectHandshake(stream, rest);
      r := stream.CmExit(res, true, layers);
    }

    /** The body of connect inside stream.cm: AUTH_REQ goes out first, then
        the exchange ConnectOf describes. */
    method ConnectHandshake(stream: Stream, rest: seq<byte>) returns (r: Result<Stream>)
      modifies stream`toRead, stream`source, stream`written
      ensures var h := ConnectOf(variant, addr, rest, old(stream.St()));
        && r == (if h.result.Ok? then Ok(stream) else Err(h.result.error))
        && stream.written == old(stream.written) + [AUTH_REQ] + h.writes
        && stream.St() == h.after
    {
      stream.Write(AUTH_REQ);
      var arep := ReadAuthReply(stream);
      if arep.Err? {
        return Err(arep.error);
      }
      if arep.value.selected != NO_AUTHENTICATION_REQUIRED {
        return Err(Protocol("socks5", "method"));
      }
      var req := EncodeRequest(Request(CMD_CONNECT, Socks5Addr(DOMAINNAME, addr)));
      if req.Err? {
        return Err(req.error);
      }
      var data := req.value;
      if |rest| != 0 {
        data := data + rest;
      }
      var o := ConnectReply(variant, stream, data);
      r := if o.Ok? then Ok(stream) else Err(o.error);
    }
  }

  /** Write the built request, then read the reply and insist on
      "succeeded". */
  method ConnectReply(v: Variant, stream: Stream, data: seq<byte>) returns (r: Result<()>)
    requires |data| != 0
    modifies stream`toRead, stream`source, stream`written
    ensures var h := ConnectReplyOf(v, data, old(stream.St()));
      && r == h.result
      && stream.written == old(stream.written) + h.writes
      && stream.St() == h.after
  {
    stream.WriteDrain(data);
    var rep := ReadReply(v, stream);
    if rep.Err? {
      return Err(rep.error);
    }
    if rep.value.rep != REP_SUCCEEDED {
      return Err(Protocol("socks5", "rep"));
    }
    r := Ok(());
  }
}
