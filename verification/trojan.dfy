/** The Trojan acceptor of proxy/acceptor/trojan.py. A client opens with one
    header, taken from a single read of the inner stream:

      56-byte hex password, CRLF, CMD, ATYP, [ALEN,] host, port, CRLF

    where ATYP, the optional length, the host and the port are a SOCKS5
    address (RFC 1928, section 5), so the header is the password, CRLF, the
    command byte, a SOCKS5-encoded address and CRLF. Everything after the
    header is kept as `rest`. */
module Trojan {
  import opened Bytes
  import opened Errors
  import opened Addresses
  import opened Streams
  import opened Socks5

  /** The hex digest of SHA-224 that serves as the password. */
  const PASSWORD_SIZE: nat := 56
  /** Byte offsets of CMD and ATYP. */
  const CMD_AT: nat := 58
  const ATYP_AT: nat := 59
  const CMD_TROJAN_CONNECT: byte := 1

  /** A client's header: the reference the parser is proved against. */
  function Header(pwd: seq<byte>, cmd: byte, dst: Socks5Addr): (r: seq<byte>)
    requires Encodable(dst)
  {
    pwd + CRLF + [cmd] + EncodeAddr(dst).value + CRLF
  }

  /** The length of the header struct that the byte at ATYP_AT selects:
      65 + ALEN for a domain ('!56s2sBBB{alen}sH2s'), 68 for IPv4
      ('!56s2sBB4sH2s') and 80 for IPv6 ('!56s2sBB16sH2s'). Reading
      buf[59] or buf[60] past the end is an index error; any other ATYP is
      an invalid header. */
  function HeaderSize(buf: seq<byte>): (r: Result<nat>)
    ensures r.Ok? ==> |buf| > ATYP_AT && AtypOf(buf[ATYP_AT]).Some?
    ensures r.Ok? && buf[ATYP_AT] == AtypCode(DOMAINNAME) ==> |buf| > ATYP_AT + 1 && r.value == 65 + buf[ATYP_AT + 1] as nat
    ensures r.Ok? && buf[ATYP_AT] != AtypCode(DOMAINNAME) ==> r.value == 64 + IpSize(AtypOf(buf[ATYP_AT]).value)
    ensures r.Err? ==> r.error in {IndexError, InvalidHeader}
  {
    if |buf| <= ATYP_AT then Err(IndexError)
    else
      match AtypOf(buf[ATYP_AT])
      case None => Err(InvalidHeader)
      case Some(DOMAINNAME) => if |buf| <= ATYP_AT + 1 then Err(IndexError) else Ok(65 + buf[ATYP_AT + 1] as nat)
      case Some(IPV4) => Ok(68)
      case Some(IPV6) => Ok(80)
  }

  /** Where the host starts inside the header. */
  function HostStart(atyp: Atyp): nat
  {
    if atyp == DOMAINNAME then ATYP_AT + 2 else ATYP_AT + 1
  }

  /** The header of TrojanAcceptor.accept, with the IPv4 and IPv6 branches
      corrected to bind and check the trailing CRLF (see ParseHeaderAsWritten
      for the code as written). The struct needs the whole header; then the
      command and both CRLFs are checked, and only then the password. On
      success the buffer is exactly a client header for the returned
      address followed by the returned rest. */
  function ParseHeader(buf: seq<byte>, pwd: seq<byte>): (r: Result<(Address, seq<byte>)>)
    ensures r.Ok? ==> |buf| > ATYP_AT && AtypOf(buf[ATYP_AT]).Some?
    ensures r.Ok? ==>
      var dst := Socks5Addr(AtypOf(buf[ATYP_AT]).value, r.value.0);
      Encodable(dst) && buf == Header(pwd, CMD_TROJAN_CONNECT, dst) + r.value.1
    ensures r == Err(InvalidPassword) ==> |buf| >= PASSWORD_SIZE && buf[..PASSWORD_SIZE] != pwd
  {
    var size := HeaderSize(buf);
    if size.Err? then Err(size.error)
    else if |buf| < size.value then Err(StructError)
    else
      var n := size.value;
      var hdr, rest := buf[..n], buf[n..];
      var atyp := AtypOf(buf[ATYP_AT]).value;
      var host := hdr[HostStart(atyp)..n - 4];
      var port := Unpack16(hdr[n - 4..n - 2]);
      if hdr[CMD_AT] != CMD_TROJAN_CONNECT || hdr[PASSWORD_SIZE..CMD_AT] != CRLF || hdr[n - 2..] != CRLF then
        Err(InvalidHeader)
      else if hdr[..PASSWORD_SIZE] != pwd then Err(InvalidPassword)
      else
        var dst := Socks5Addr(atyp, Address(host, port as nat));
        Pack16Unpack16(hdr[n - 4..n - 2]);
        HeaderFields(hdr, pwd, dst);
        Ok((dst.addr, rest))
  }

  /** A header whose fields sit where the parser looks for them is the
      client header of those fields. */
  lemma HeaderFields(hdr: seq<byte>, pwd: seq<byte>, dst: Socks5Addr)
    requires |hdr| == HostStart(dst.atyp) + |dst.addr.host| + 4
    requires dst.addr.port < 0x1_0000
    requires dst.atyp == DOMAINNAME ==> hdr[ATYP_AT + 1] as nat == |dst.addr.host|
    requires dst.atyp != DOMAINNAME ==> |dst.addr.host| == IpSize(dst.atyp)
    requires hdr[..PASSWORD_SIZE] == pwd && hdr[PASSWORD_SIZE..CMD_AT] == CRLF
    requires hdr[CMD_AT] == CMD_TROJAN_CONNECT && hdr[ATYP_AT] == AtypCode(dst.atyp)
    requires hdr[HostStart(dst.atyp)..|hdr| - 4] == dst.addr.host
    requires hdr[|hdr| - 4..|hdr| - 2] == Pack16(dst.addr.port as uint16)
    requires hdr[|hdr| - 2..] == CRLF
    ensures Encodable(dst) && hdr == Header(pwd, CMD_TROJAN_CONNECT, dst)
  {
    AddrPart(hdr, dst);
    Assemble(hdr, pwd, EncodeAddr(dst).value);
  }

  /** The bytes between the command and the trailing CRLF encode dst. */
  lemma AddrPart(hdr: seq<byte>, dst: Socks5Addr)
    requires |hdr| == HostStart(dst.atyp) + |dst.addr.host| + 4
    requires dst.addr.port < 0x1_0000
    requires dst.atyp == DOMAINNAME ==> hdr[ATYP_AT + 1] as nat == |dst.addr.host|
    requires dst.atyp != DOMAINNAME ==> |dst.addr.host| == IpSize(dst.atyp)
    requires hdr[ATYP_AT] == AtypCode(dst.atyp)
    requires hdr[HostStart(dst.atyp)..|hdr| - 4] == dst.addr.host
    requires hdr[|hdr| - 4..|hdr| - 2] == Pack16(dst.addr.port as uint16)
    ensures Encodable(dst) && hdr[ATYP_AT..|hdr| - 2] == EncodeAddr(dst).value
  {
    var n, s := |hdr|, HostStart(dst.atyp);
    if dst.atyp == DOMAINNAME {
      assert hdr[ATYP_AT..s] == [hdr[ATYP_AT], hdr[ATYP_AT + 1]];
    } else {
      assert hdr[ATYP_AT..s] == [hdr[ATYP_AT]];
    }
    SliceSplit(hdr, ATYP_AT, s, n - 2);
    SliceSplit(hdr, s, n - 4, n - 2);
  }

  /** A buffer with the header's five parts in place is their concatenation. */
  lemma Assemble(hdr: seq<byte>, pwd: seq<byte>, enc: seq<byte>)
    requires ATYP_AT + 2 <= |hdr|
    requires hdr[..PASSWORD_SIZE] == pwd && hdr[PASSWORD_SIZE..CMD_AT] == CRLF && hdr[CMD_AT] == CMD_TROJAN_CONNECT
    requires hdr[ATYP_AT..|hdr| - 2] == enc && hdr[|hdr| - 2..] == CRLF
    ensures hdr == pwd + CRLF + [CMD_TROJAN_CONNECT] + enc + CRLF
  {
    var n := |hdr|;
    assert hdr[CMD_AT..ATYP_AT] == [CMD_TROJAN_CONNECT];
    assert hdr[..n] == hdr;
    SliceSplit(hdr, 0, PASSWORD_SIZE, n);
    SliceSplit(hdr, PASSWORD_SIZE, CMD_AT, n);
    SliceSplit(hdr, CMD_AT, ATYP_AT, n);
    SliceSplit(hdr, ATYP_AT, n - 2, n);
  }

  lemma SliceSplit(x: seq<byte>, a: nat, b: nat, c: nat)
    requires a <= b <= c <= |x|
    ensures x[a..c] == x[a..b] + x[b..c]
  {
  }

  /** TrojanAcceptor.accept's header code as written: the IPv4 and IPv6
      branches unpack the seven fields of '!56s2sBB4sH2s' / '!56s2sBB16sH2s'
      into six names, so once the struct has its full 68 / 80 bytes the
      unpacking raises, and a domain header is the only one that can pass. */
  function ParseHeaderAsWritten(buf: seq<byte>, pwd: seq<byte>): (r: Result<(Address, seq<byte>)>)
    ensures r.Ok? ==> |buf| > ATYP_AT && buf[ATYP_AT] == AtypCode(DOMAINNAME) && r == ParseHeader(buf, pwd)
  {
    var size := HeaderSize(buf);
    if size.Ok? && |buf| >= size.value && buf[ATYP_AT] != AtypCode(DOMAINNAME) then Err(TooManyValues)
    else ParseHeader(buf, pwd)
  }

  /** Where the parser finds each field of a client header. */
  lemma HeaderLayout(pwd: seq<byte>, cmd: byte, dst: Socks5Addr, rest: seq<byte>)
    requires |pwd| == PASSWORD_SIZE && Encodable(dst)
    ensures var buf := Header(pwd, cmd, dst) + rest;
      var n := |Header(pwd, cmd, dst)|;
      && n == HostStart(dst.atyp) + |dst.addr.host| + 4 <= |buf|
      && buf[ATYP_AT] == AtypCode(dst.atyp)
      && (dst.atyp == DOMAINNAME ==> buf[ATYP_AT + 1] as nat == |dst.addr.host|)
      && HeaderSize(buf) == Ok(n)
      && buf[..n] == Header(pwd, cmd, dst) && buf[n..] == rest
      && buf[..n][..PASSWORD_SIZE] == pwd && buf[..n][PASSWORD_SIZE..CMD_AT] == CRLF
      && buf[..n][CMD_AT] == cmd
      && buf[..n][HostStart(dst.atyp)..n - 4] == dst.addr.host
      && buf[..n][n - 4..n - 2] == Pack16(dst.addr.port as uint16)
      && buf[..n][n - 2..] == CRLF
  {
    var h := Header(pwd, cmd, dst);
    var buf := h + rest;
    var s := HostStart(dst.atyp);
    var e := EncodeAddr(dst).value;
    var lead := if dst.atyp == DOMAINNAME then [AtypCode(DOMAINNAME), |dst.addr.host| as byte] else [AtypCode(dst.atyp)];
    assert e == lead + dst.addr.host + Pack16(dst.addr.port as uint16);
    assert h == (pwd + CRLF + [cmd] + lead) + dst.addr.host + Pack16(dst.addr.port as uint16) + CRLF;
    assert |pwd + CRLF + [cmd] + lead| == s;
    assert buf[..|h|] == h;
  }

  /** A client header parses back to its address, with exactly the bytes
      behind it as the rest. */
  lemma HeaderRoundTrip(pwd: seq<byte>, dst: Socks5Addr, rest: seq<byte>)
    requires |pwd| == PASSWORD_SIZE && Encodable(dst)
    ensures ParseHeader(Header(pwd, CMD_TROJAN_CONNECT, dst) + rest, pwd) == Ok((dst.addr, rest))
  {
    HeaderLayout(pwd, CMD_TROJAN_CONNECT, dst, rest);
    var buf := Header(pwd, CMD_TROJAN_CONNECT, dst) + rest;
    var n := |Header(pwd, CMD_TROJAN_CONNECT, dst)|;
    assert AtypOf(buf[ATYP_AT]) == Some(dst.atyp);
    Unpack16Pack16(dst.addr.port as uint16);
  }

  /** A command other than CONNECT is an invalid header whatever the
      password: the header is validated before the password is compared. */
  lemma HeaderRejectsCommand(other: seq<byte>, cmd: byte, dst: Socks5Addr, rest: seq<byte>, pwd: seq<byte>)
    requires |other| == PASSWORD_SIZE && Encodable(dst) && cmd != CMD_TROJAN_CONNECT
    ensures ParseHeader(Header(other, cmd, dst) + rest, pwd) == Err(InvalidHeader)
  {
    HeaderLayout(other, cmd, dst, rest);
  }

  /** A well-formed header carrying another password is refused as such. */
  lemma HeaderRejectsPassword(other: seq<byte>, dst: Socks5Addr, rest: seq<byte>, pwd: seq<byte>)
    requires |other| == PASSWORD_SIZE && Encodable(dst) && other != pwd
    ensures ParseHeader(Header(other, CMD_TROJAN_CONNECT, dst) + rest, pwd) == Err(InvalidPassword)
  {
    HeaderLayout(other, CMD_TROJAN_CONNECT, dst, rest);
  }

  /** The header must arrive whole in the one read: no proper prefix of a
      client header is accepted. */
  lemma ShortHeaderRejected(pwd: seq<byte>, dst: Socks5Addr, k: nat)
    requires |pwd| == PASSWORD_SIZE && Encodable(dst) && k < |Header(pwd, CMD_TROJAN_CONNECT, dst)|
    ensures ParseHeader(Header(pwd, CMD_TROJAN_CONNECT, dst)[..k], pwd).Err?
  {
    var h := Header(pwd, CMD_TROJAN_CONNECT, dst);
    var p := h[..k];
    var r := ParseHeader(p, pwd);
    if r.Ok? {
      HeaderLayout(pwd, CMD_TROJAN_CONNECT, dst, []);
      assert h + [] == h;
      var d := Socks5Addr(AtypOf(p[ATYP_AT]).value, r.value.0);
      HeaderLayout(pwd, CMD_TROJAN_CONNECT, d, r.value.1);
      assert false;
    }
  }

  /** As written, no IPv4 or IPv6 header is accepted, not even a well-formed
      one with the right password, which the corrected parser accepts. */
  lemma ParseHeaderAsWrittenRejectsIp(pwd: seq<byte>, dst: Socks5Addr, rest: seq<byte>)
    requires |pwd| == PASSWORD_SIZE && Encodable(dst) && dst.atyp != DOMAINNAME
    ensures ParseHeaderAsWritten(Header(pwd, CMD_TROJAN_CONNECT, dst) + rest, pwd) == Err(TooManyValues)
    ensures ParseHeader(Header(pwd, CMD_TROJAN_CONNECT, dst) + rest, pwd) == Ok((dst.addr, rest))
  {
    HeaderLayout(pwd, CMD_TROJAN_CONNECT, dst, rest);
    HeaderRoundTrip(pwd, dst, rest);
  }

  /** The header parser the variant runs. */
  function ParseHeaderWith(v: Variant, buf: seq<byte>, pwd: seq<byte>): (r: Result<(Address, seq<byte>)>)
    ensures r.Ok? ==> |buf| > ATYP_AT && AtypOf(buf[ATYP_AT]).Some?
    ensures r.Ok? ==>
      var dst := Socks5Addr(AtypOf(buf[ATYP_AT]).value, r.value.0);
      Encodable(dst) && buf == Header(pwd, CMD_TROJAN_CONNECT, dst) + r.value.1
    ensures r.Ok? && v == AsWritten ==> buf[ATYP_AT] == AtypCode(DOMAINNAME)
  {
    if v == Corrected then ParseHeader(buf, pwd) else ParseHeaderAsWritten(buf, pwd)
  }

  /** accept: one read of the inner stream, then the header. A success took
      the whole pending buffer or chunk, and that read was a client header
      for the returned address followed by the returned rest; as written
      the header names a DOMAINNAME. */
  function AcceptOf(v: Variant, pwd: seq<byte>, st: State): (res: (Result<(Address, seq<byte>)>, State))
    ensures res.1.pending == []
    ensures res.0.Ok? ==> |Unconsumed(st)| > ATYP_AT && AtypOf(Unconsumed(st)[ATYP_AT]).Some?
    ensures res.0.Ok? ==>
      var dst := Socks5Addr(AtypOf(Unconsumed(st)[ATYP_AT]).value, res.0.value.0);
      Encodable(dst) && Unconsumed(st) == Header(pwd, CMD_TROJAN_CONNECT, dst) + res.0.value.1 + Unconsumed(res.1)
    ensures res.0.Ok? && v == AsWritten ==> Unconsumed(st)[ATYP_AT] == AtypCode(DOMAINNAME)
  {
    var r := ReadOf(st);
    var h := ParseHeaderWith(v, r.0, pwd);
    if h.Ok? then
      assert Unconsumed(st)[..|r.0|] == r.0;
      (h, r.1)
    else (h, r.1)
  }

  /** A client that sends its header, and possibly the first payload bytes,
      in its first write is accepted, and the stream has nothing pending:
      whatever the address with the corrected parser, for a DOMAINNAME
      with the code as written. */
  lemma AcceptFirstChunk(v: Variant, pwd: seq<byte>, dst: Socks5Addr, rest: seq<byte>, more: seq<seq<byte>>)
    requires |pwd| == PASSWORD_SIZE && Encodable(dst)
    requires v == Corrected || dst.atyp == DOMAINNAME
    ensures AcceptOf(v, pwd, State([], [Header(pwd, CMD_TROJAN_CONNECT, dst) + rest] + more))
      == (Ok((dst.addr, rest)), State([], more))
  {
    HeaderLayout(pwd, CMD_TROJAN_CONNECT, dst, rest);
    HeaderRoundTrip(pwd, dst, rest);
  }

  /** As written, a client whose header names an IPv4 or IPv6 address is
      refused with the unpacking error, so TrojanAcceptor.Accept closes the
      stream; the corrected acceptor accepts the same client. */
  lemma AcceptAsWrittenRejectsIp(pwd: seq<byte>, dst: Socks5Addr, rest: seq<byte>, more: seq<seq<byte>>)
    requires |pwd| == PASSWORD_SIZE && Encodable(dst) && dst.atyp != DOMAINNAME
    ensures AcceptOf(AsWritten, pwd, State([], [Header(pwd, CMD_TROJAN_CONNECT, dst) + rest] + more))
      == (Err(TooManyValues), State([], more))
    ensures AcceptOf(Corrected, pwd, State([], [Header(pwd, CMD_TROJAN_CONNECT, dst) + rest] + more))
      == (Ok((dst.addr, rest)), State([], more))
  {
    ParseHeaderAsWrittenRejectsIp(pwd, dst, rest);
  }

  /** `variant` picks the header parser: the repository's class is the
      AsWritten one. */
  class TrojanAcceptor {
    const variant: Variant
    const pwd: seq<byte>
    var addr: Address
    var rest: seq<byte>

    /** The password is the 56-character hex digest of SHA-224. */
    constructor (variant: Variant, pwd: seq<byte>)
      requires |pwd| == PASSWORD_SIZE
      ensures this.variant == variant && this.pwd == pwd
    {
      this.variant := variant;
      this.pwd := pwd;
      addr := Address([], 0);
      rest := [];
    }

    /** accept on the stream of the inner acceptor. On success addr and rest
        are set and the same stream is returned; on any failure the stream
        is closed (its own close and wait_closed, whose errors are dropped)
        and the failure is passed on. */
    method Accept(stream: Stream) returns (r: Result<Stream>)
      modifies this`addr, this`rest, stream`toRead, stream`source, stream`closeCalls
      ensures var (res, after) := AcceptOf(variant, pwd, old(stream.St()));
        && stream.St() == after
        && r == (if res.Ok? then Ok(stream) else Err(res.error))
        && (addr, rest) == (if res.Ok? then res.value else (old(addr), old(rest)))
        && stream.closeCalls == old(stream.closeCalls) + (if res.Ok? then 0 else 1)
    {
      var buf := stream.Read();
      var h := ParseHeaderWith(variant, buf, pwd);
      if h.Ok? {
        addr, rest := h.value.0, h.value.1;
        return Ok(stream);
      }
      var _ := stream.CloseLayer();
      r := Err(h.error);
    }
  }
}
