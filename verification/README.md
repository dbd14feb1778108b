# Verified model of the python-proxy-platform stream and handshake core

This project models, in Dafny, the part of the proxy that turns a raw
connection into a proxy request:

- the layered byte stream (`proxy/stream/base.py`): the pending buffer that
  `push`, `pop`, `read` and `peek` share; the bounded readers `readatleast`,
  `readexactly` and `readuntil`, guarded by `STREAM_BUFSIZE` = 2^22; the
  writers; and the `ensure_closed` cascade behind `cm`;
- the SOCKS5 codec and both handshakes (`p3/contrib/basic/socks5.py`, after
  RFC 1928, sections 3 to 6);
- the acceptor that auto-detects HTTP or SOCKS5 (`proxy/acceptor/auto.py`),
  including its two regular expressions and its fixed response;
- the Trojan header acceptor (`proxy/acceptor/trojan.py`);
- the VMess AEAD framing layer (`proxy/contrib/v2rayn/stream/vmess.py`);
- the hand-off of leftover bytes through `ProxyRequest`
  (`p3/stream/proxy.py`) and the inbox (`p3/iobox/inbox.py`).

How the model is laid out:

- **Stream state.** A stream's read side is a `State`: the pending buffer,
  plus the chunks that successive `read_primitive` calls will return. Once
  the chunks are used up, `read_primitive` returns the empty buffer, which
  means end of stream.
- **Spec functions and methods.** Every reading operation is a pure
  function on `State` (`ReadOf`, `ExactlyOf`, `UntilOf`, ...). The
  methods of class `Streams.Stream` are proved to compute exactly those
  functions. The protocol properties are lemmas about the functions.
- **Handshakes.** Each handshake is a function returning a `Handshake`:
  its result, the buffers it wrote, and the read state afterwards. Each
  acceptor or connector class has a method proved equal to that function.
- **Closing.** The close cascade walks a ghost list of the layers under a
  stream. Each layer counts its `close`/`wait_closed` attempts.
- **Hosts.** Domain names and HTTP hosts are ASCII bytes. IPv4 and IPv6
  hosts are their raw 4 or 16 bytes.

Files:

| file | module | models |
|---|---|---|
| `bytes.dfy` | `Bytes` | bytes, `!H` packing, decimal text |
| `errors.dfy` | `Errors` | the raised exceptions as values |
| `address.dfy` | `Addresses` | the `(host, port)` pair |
| `stream.dfy` | `Streams` | the stream buffer |
| `socks5.dfy` | `Socks5` | the SOCKS5 codec and handshakes |
| `auto.dfy` | `Auto` | the HTTP-or-SOCKS5 acceptor |
| `trojan.dfy` | `Trojan` | the Trojan acceptor |
| `vmess.dfy` | `Aead`, `Vmess` | the AEAD stand-in and the VMess framing layer |
| `proxy.dfy` | `Proxy` | `ProxyRequest` |
| `inbox.dfy` | `Inboxes` | the inbox hand-off |

Some behaviour of the code that is easy to miss, and that the model keeps:

- A failed VMess decrypt raises before the counter is stepped
  (proxy/contrib/v2rayn/stream/vmess.py:27-28), so the counter stays where
  it was.
- In the Trojan header, byte 58 is the command and byte 59 the address
  type (proxy/acceptor/trojan.py:26-30). There is no reserved byte between
  them.
- `readuntil` always performs at least one read, even when the separator
  is already pending (proxy/stream/base.py:122-133). Its buffer starts
  empty, and the search only runs after a read.
- The auto acceptor's inline SOCKS5 parser needs each `readatleast` to
  return exactly one message (proxy/acceptor/auto.py:34-53). A greeting and
  a request that arrive in one chunk are refused.
- Two IP-address branches do not work as written (see "## Findings"). The
  model has both versions, selected by `Socks5.Variant`: `AsWritten` is the
  code as it stands, and `Corrected` the intended one. The acceptor and
  connector classes take the variant as a constructor argument; the
  repository's classes are the `AsWritten` ones. Lemmas about domain
  addresses hold for both variants, and lemmas about IP addresses state
  the `AsWritten` failure and the `Corrected` success separately.

## Model

| member | source | states |
|---|---|---|
| Bytes.Pack16 | p3/contrib/basic/socks5.py:121 | `!H` packing gives two bytes whose big-endian value is the port |
| Bytes.Unpack16 | p3/contrib/basic/socks5.py:138 | `!H` unpacking gives the big-endian value of the two bytes |
| Bytes.Decimal | p3/stream/proxy.py:28 | str.format of a number is a non-empty run of digits with no leading zero |
| Bytes.ParseDecimal | proxy/acceptor/auto.py:68 | the value int() gives k decimal digits (before its length limit) is less than 10^k |
| Bytes.ParseDecimalOfDecimal | proxy/acceptor/auto.py:68 | the digit value of the decimal text of any natural number is that number (the length limit is Auto.HostPort's) |
| Streams.Pushed | proxy/stream/base.py:38-39 | push(X) leaves X in front of every byte still to be read |
| Streams.ReadOf | proxy/stream/base.py:87-91 | read returns the pending buffer untouched when non-empty, else exactly one primitive read; nothing is pending afterwards and no byte is lost |
| Streams.PeekOf | proxy/stream/base.py:93-96 | peek consumes nothing, returns the pending buffer, and leaves a non-empty buffer alone |
| Streams.AtLeastFrom | proxy/stream/base.py:99-110 | the readatleast loop: a success holds at least n and at most STREAM_BUFSIZE bytes and is a prefix of what was to be read; failures are IncompleteRead or LimitOverrun |
| Streams.AtLeastOf | proxy/stream/base.py:98-110 | readatleast(n) as above; n = 0 returns empty without reading |
| Streams.ExactlyOf | proxy/stream/base.py:112-117 | readexactly(n) returns n bytes, and they followed by the new state are all the bytes there were |
| Streams.IndexFrom | proxy/stream/base.py:133 | the leftmost occurrence of the separator at or after an index, or none |
| Streams.FoundSplits | proxy/stream/base.py:133-137 | the loop step that first finds the separator splits the input at its first occurrence |
| Streams.UntilFromSplits | proxy/stream/base.py:122-138 | the readuntil loop: a success is the input split at the separator's first occurrence, with the separator kept unless stripped; same errors as readatleast, plus an empty separator |
| Streams.UntilFrom | proxy/stream/base.py:122-133 | the readuntil loop fails only with IncompleteRead, LimitOverrun or the empty-separator error |
| Streams.UntilOf | proxy/stream/base.py:119-138 | readuntil returns the bytes before the first separator (with it unless strip) and leaves exactly the bytes after it |
| Streams.UntilStripSplits | proxy/stream/base.py:133-138 | readuntil(sep, strip=True) returning v consumed exactly v and sep |
| Streams.UntilTame | proxy/stream/base.py:119-138 | on a tame stream whose first separator ends within half the limit, readuntil succeeds with the bytes before it (with it unless strip) and leaves exactly the bytes after it |
| Streams.UntilFromTame | proxy/stream/base.py:122-133 | on such a stream, the loop succeeds once the separator is within reach |
| Streams.UntilIncomplete | proxy/stream/base.py:119-126 | with no separator anywhere in at most STREAM_BUFSIZE bytes, readuntil raises IncompleteRead |
| Streams.UntilFromIncomplete | proxy/stream/base.py:123-133 | the loop reaches end of stream, and IncompleteRead, when the separator never occurs and the limit is not passed |
| Streams.ReadTame | proxy/stream/base.py:87-91 | on a tame stream with bytes left, read returns a non-empty chunk of at most half the limit and leaves the stream tame |
| Streams.DrainOfSplits | proxy/stream/base.py:77-82 | the reads write_stream forwards, followed by what is left, are all the reader had |
| Streams.DrainOf | proxy/stream/base.py:77-82 | after write_stream the reader has nothing pending |
| Streams.DrainOfNonEmpty | proxy/stream/base.py:79-81 | every forwarded read is non-empty: the first empty read ends the loop |
| Streams.PushThenRead | proxy/stream/base.py:38-39 | after push(X), read returns X followed by the old pending bytes |
| Streams.PeekIdempotent | proxy/stream/base.py:93-96 | peeking twice returns the same bytes and state (unless at end of stream) |
| Streams.AtLeastFromIncomplete | proxy/stream/base.py:100-103 | with fewer bytes left than requested, the loop ends in IncompleteRead |
| Streams.AtLeastIncomplete | proxy/stream/base.py:100-103 | readatleast(n) with fewer than n bytes left raises IncompleteRead |
| Streams.AtLeastOverrun | proxy/stream/base.py:104-109 | a read over STREAM_BUFSIZE raises LimitOverrun even when n was reached |
| Streams.AtLeastFromTame | proxy/stream/base.py:99-110 | on a stream of chunks no larger than half the limit, the loop succeeds whenever enough bytes remain |
| Streams.ExactlyTame | proxy/stream/base.py:112-117 | on such a stream, readexactly(n) returns the next n bytes and leaves the rest |
| Streams.PeekTame | proxy/stream/base.py:93-96 | on such a stream, peek shows the next byte |
| Streams.UntilFromOverrun | proxy/stream/base.py:123-132 | with no separator in the first STREAM_BUFSIZE bytes, the loop ends in LimitOverrun |
| Streams.UntilOverrun | proxy/stream/base.py:119-132 | readuntil over more than STREAM_BUFSIZE bytes with no separator raises LimitOverrun |
| Streams.DrainAll | proxy/stream/base.py:77-82 | write_stream forwards every byte of a reader that has no early end of stream |
| Streams.Stream.constructor | proxy/stream/base.py:22-24 | a new layer has nothing pending |
| Streams.Stream.Push | proxy/stream/base.py:38-39 | the new state is Pushed(buf, old state) |
| Streams.Stream.Pop | proxy/stream/base.py:41-43 | returns the whole pending buffer and leaves it empty |
| Streams.Stream.ReadPrimitive | proxy/stream/base.py:84-85 | the transport's next chunk, or empty at end of stream |
| Streams.Stream.Read | proxy/stream/base.py:87-91 | computes ReadOf |
| Streams.Stream.Peek | proxy/stream/base.py:93-96 | computes PeekOf |
| Streams.Stream.ReadAtLeast | proxy/stream/base.py:98-110 | computes AtLeastOf, by the loop |
| Streams.Stream.ReadExactly | proxy/stream/base.py:112-117 | computes ExactlyOf |
| Streams.Stream.ReadUntil | proxy/stream/base.py:119-138 | computes UntilOf, by the loop |
| Streams.Stream.WritePrimitive | proxy/stream/base.py:60-61 | one more buffer on the wire |
| Streams.WriteLog | proxy/stream/base.py:63-67 | what write sends is exactly the buffer, and an empty buffer sends nothing (its debug log is not modelled) |
| Streams.Stream.Write | proxy/stream/base.py:63-67 | a non-empty buffer is written once; an empty one is not written |
| Streams.Stream.WriteDrain | proxy/stream/base.py:73-75 | writes as write does |
| Streams.Stream.WriteStream | proxy/stream/base.py:77-82 | writes exactly the reads DrainOf lists, and leaves the reader in DrainOf's state |
| Streams.Stream.CloseLayer | proxy/stream/base.py:52-56 | one close/wait_closed attempt on this layer; its failure is reported, not raised |
| Streams.Stream.EnsureClosed | proxy/stream/base.py:51-58 | every layer of the chain gets exactly one close attempt, whatever fails, and nothing else about any layer changes |
| Streams.Stream.CmExit | proxy/stream/base.py:26-36 | the chain is closed when the body failed, or always when exc_only is false; the body's outcome passes through unchanged |
| Socks5.AtypOf | p3/contrib/basic/socks5.py:71-79 | the address types are exactly codes 1, 3 and 4 |
| Socks5.EncodeAddr | p3/contrib/basic/socks5.py:114-129 | encodes exactly the encodable addresses as atyp, [length,] host, big-endian port |
| Socks5.ReadByteOf | p3/contrib/basic/socks5.py:133 | readB consumes exactly the byte it returns |
| Socks5.ReadUint16Of | p3/contrib/basic/socks5.py:138 | readH consumes exactly the packing of the value it returns |
| Socks5.ReadByteTame | p3/contrib/basic/socks5.py:133 | on a tame stream, readB returns the next byte |
| Socks5.ReadUint16Tame | p3/contrib/basic/socks5.py:138 | on a tame stream, readH returns the next two bytes' value |
| Socks5.ReadDomainOf | p3/contrib/basic/socks5.py:135-139 | a decoded domain address consumed exactly its length, name and port |
| Socks5.ReadIpOf | p3/contrib/basic/socks5.py:140-145 | Corrected IP branch: a decoded address consumed exactly its raw host and port |
| Socks5.ReadIpAsWrittenOf | p3/contrib/basic/socks5.py:140-145 | AsWritten IP branch: never succeeds; once the 7 or 19 bytes are there it fails with too many values to unpack |
| Socks5.ReadAddrBody | p3/contrib/basic/socks5.py:135-145 | the branch after the atyp byte: a success has that atyp, is encodable, and consumed exactly the address body; AsWritten succeeds only for a domain |
| Socks5.ReadAddrOf | p3/contrib/basic/socks5.py:131-148 | in either variant, a decoded address is encodable and consumed exactly its encoding; AsWritten decodes only domain addresses |
| Socks5.ReadDomainRoundTrip | p3/contrib/basic/socks5.py:116-121 | the domain branch decodes the domain encoding and leaves the bytes behind it |
| Socks5.ReadIpRoundTrip | p3/contrib/basic/socks5.py:122-127 | the corrected IP branches decode the IP encodings and leave the bytes behind them |
| Socks5.ReadAddrRoundTrip | p3/contrib/basic/socks5.py:114-148 | read_from_stream inverts __bytes__: same atyp, host and port, exactly the encoding consumed; for domains in both variants, for IP addresses in Corrected |
| Socks5.ReadAddrAsWrittenRejectsIp | p3/contrib/basic/socks5.py:141-144 | AsWritten, the encoding of any IPv4 or IPv6 address fails (IncompleteRead at end of stream, else too many values), while Corrected returns it |
| Socks5.ReadAddrAsWrittenExample | p3/contrib/basic/socks5.py:141 | 1.2.3.4 port 80 fails with a too-many-values error as written and decodes when corrected |
| Socks5.EncodeAuthRequest | p3/contrib/basic/socks5.py:162-165 | [5, n] followed by the methods; more than 255 methods is a struct error |
| Socks5.ReadAuthRequestOf | p3/contrib/basic/socks5.py:167-174 | a success offers 1 to 255 methods and consumed exactly its encoding |
| Socks5.AuthRequestRoundTrip | p3/contrib/basic/socks5.py:162-174 | decoding an encoded greeting returns it and leaves the bytes behind it |
| Socks5.AuthRequestRejects | p3/contrib/basic/socks5.py:169-172 | version other than 5, or zero methods, is refused |
| Socks5.ReadAuthReplyOf | p3/contrib/basic/socks5.py:191-196 | a success names a known method and consumed exactly [5, method] |
| Socks5.AuthReplyRoundTrip | p3/contrib/basic/socks5.py:188-196 | decoding EncodeAuthReply's [5, method] returns the reply and leaves the bytes behind it |
| Socks5.EncodeRequest | p3/contrib/basic/socks5.py:211-212 | [5, cmd, 0] followed by the address encoding |
| Socks5.EncodeReply | p3/contrib/basic/socks5.py:236-237 | [5, rep, 0] followed by the address encoding |
| Socks5.ReadHeadOf | p3/contrib/basic/socks5.py:216-219 | a success is a code the enum accepts, and consumed exactly [5, code, 0] |
| Socks5.ReadRequestOf | p3/contrib/basic/socks5.py:214-221 | in either variant, a success is a known command with an encodable address, and consumed exactly its encoding; AsWritten only with a domain |
| Socks5.ReadReplyOf | p3/contrib/basic/socks5.py:239-246 | in either variant, a success is a known reply code with an encodable address, and consumed exactly its encoding; AsWritten only with a domain |
| Socks5.ReadHeadTame | p3/contrib/basic/socks5.py:216-219 | on a tame stream, [5, code, 0] decodes to the code |
| Socks5.RequestRoundTrip | p3/contrib/basic/socks5.py:211-221 | decoding an encoded request returns it and leaves the bytes behind it (domain: both variants; IP: Corrected) |
| Socks5.RequestAsWrittenRejectsIp | p3/contrib/basic/socks5.py:214-221 | AsWritten, every request for an IPv4 or IPv6 destination fails to decode, with the exact error |
| Socks5.ReplyRoundTrip | p3/contrib/basic/socks5.py:236-246 | decoding an encoded reply returns it and leaves the bytes behind it (domain: both variants; IP: Corrected) |
| Socks5.ReplyAsWrittenRejectsIp | p3/contrib/basic/socks5.py:239-246 | AsWritten, every reply with an IPv4 or IPv6 bound address fails to decode, with the exact error |
| Socks5.HeadRejects | p3/contrib/basic/socks5.py:216-218 | version other than 5, or reserved byte other than 0, is refused in requests and replies |
| Socks5.FixedMessagesAreEncodings | p3/contrib/basic/socks5.py:250-279 | AUTH_REQ is 05 01 00, AUTH_REP is 05 00, REP is 05 00 00 01 and six zeros, each the codec's encoding |
| Socks5.DispatchOf | p3/contrib/basic/socks5.py:291-299 | in either variant, a success wrote exactly AUTH_REP then REP; a failure wrote a prefix of that |
| Socks5.DispatchRequestOf | p3/contrib/basic/socks5.py:295-299 | after AUTH_REP: succeeds exactly when the request decodes with CONNECT, returns its destination, and only then writes REP; AsWritten only for a domain |
| Socks5.DispatchAccepts | p3/contrib/basic/socks5.py:291-299 | a no-auth CONNECT client is answered with 05 00 and REP, its destination recorded, its later bytes unread (domain: both variants; IP: Corrected) |
| Socks5.DispatchAsWrittenRejectsIp | p3/contrib/basic/socks5.py:291-299 | AsWritten, a no-auth CONNECT client asking for an IPv4 or IPv6 destination gets 05 00 and then a failure, with the exact error |
| Socks5.DispatchRejectsAuth | p3/contrib/basic/socks5.py:292-294 | without method 0 the acceptor fails before writing anything |
| Socks5.DispatchRejectsCommand | p3/contrib/basic/socks5.py:296-297 | a command other than CONNECT fails after only 05 00 was written (domain: both variants; IP: Corrected) |
| Socks5.ConnectOf | p3/contrib/basic/socks5.py:260-268 | in either variant, at most one write, and a success means the server selected no authentication |
| Socks5.ConnectWrites | p3/contrib/basic/socks5.py:260-268 | a success sent one write: the CONNECT request with the target as DOMAINNAME, then rest |
| Socks5.ConnectReplyOf | p3/contrib/basic/socks5.py:266-268 | in either variant, writes the request, and succeeds exactly when the reply decodes with code Succeeded |
| Socks5.ConnectSucceeds | p3/contrib/basic/socks5.py:256-269 | against a server that selects no-auth and replies Succeeded, connect succeeds and leaves the bytes after the reply unread (domain bound address: both variants; IP: Corrected) |
| Socks5.ConnectRejects | p3/contrib/basic/socks5.py:260-268 | in either variant, any other selected method, or any other reply code, makes connect fail |
| Socks5.ConnectAsWrittenRejectsIp | p3/contrib/basic/socks5.py:260-268 | AsWritten, a Succeeded reply with an IPv4 or IPv6 bound address still makes connect fail, with the exact error |
| Socks5.ConnectAsWrittenFailsOnRep | p3/contrib/basic/socks5.py:260-279 | AsWritten, the connector cannot complete against the acceptor's own AUTH_REP and REP (REP's bound address is IPv4): IncompleteRead, where Corrected succeeds |
| Socks5.ReadByte | p3/contrib/basic/socks5.py:133 | computes ReadByteOf |
| Socks5.ReadUint16 | p3/contrib/basic/socks5.py:138 | computes ReadUint16Of |
| Socks5.ReadDomain | p3/contrib/basic/socks5.py:135-139 | computes ReadDomainOf |
| Socks5.ReadIp | p3/contrib/basic/socks5.py:140-145 | computes ReadIpOf |
| Socks5.ReadIpAsWritten | p3/contrib/basic/socks5.py:140-145 | computes ReadIpAsWrittenOf |
| Socks5.ReadAddr | p3/contrib/basic/socks5.py:131-148 | computes ReadAddrOf for the given variant |
| Socks5.ReadAuthRequest | p3/contrib/basic/socks5.py:167-174 | computes ReadAuthRequestOf |
| Socks5.ReadAuthReply | p3/contrib/basic/socks5.py:191-196 | computes ReadAuthReplyOf |
| Socks5.ReadHead | p3/contrib/basic/socks5.py:216-219 | computes ReadHeadOf |
| Socks5.ReadRequest | p3/contrib/basic/socks5.py:214-221 | computes ReadRequestOf |
| Socks5.ReadReply | p3/contrib/basic/socks5.py:239-246 | computes ReadReplyOf |
| Socks5.Socks5Acceptor.constructor | p3/contrib/basic/socks5.py:272-281 | the variant is stored |
| Socks5.Socks5Acceptor.DispatchSocks5 | p3/contrib/basic/socks5.py:291-299 | writes, consumes and records exactly what DispatchOf says for the acceptor's variant |
| Socks5.Socks5Acceptor.DispatchRequest | p3/contrib/basic/socks5.py:295-299 | writes AUTH_REP, then reads the request and, for CONNECT, records its destination and writes REP, as DispatchRequestOf says |
| Socks5.Socks5Acceptor.Accept | p3/contrib/basic/socks5.py:283-289 | as DispatchSocks5, and any failure closes every layer of the chain once; the layers under the stream keep their read state, writes and links |
| Socks5.Socks5Connector.constructor | p3/stream/proxy.py:13-15 | the variant and the target address are stored unchanged |
| Socks5.Socks5Connector.Connect | p3/contrib/basic/socks5.py:255-269 | writes AUTH_REQ first, then what ConnectOf says for the connector's variant; any failure closes the chain; the layers under the stream keep their read state, writes and links |
| Socks5.Socks5Connector.ConnectHandshake | p3/contrib/basic/socks5.py:258-269 | AUTH_REQ, then the reads, writes and result ConnectOf gives |
| Socks5.ConnectReply | p3/contrib/basic/socks5.py:266-268 | one write of the request, then the reply read and checked, as ConnectReplyOf says |
| Auto.LineEnds | proxy/acceptor/auto.py:13 | the scanner's three ends bound a word-byte method, a space-free target and an HTTP/ version followed by CRLF |
| Auto.ParseRequestLineSound | proxy/acceptor/auto.py:13 | a match is a line of HTTP_REQ_RE, and the groups are its method and version |
| Auto.ParseRequestLineAt | proxy/acceptor/auto.py:13 | the scanner returns the runs that end where the line's parts end |
| Auto.ParseRequestLineComplete | proxy/acceptor/auto.py:13 | every block that starts with a line of HTTP_REQ_RE matches, with that method and version |
| Auto.ParseRequestLine | proxy/acceptor/auto.py:13 | a match's method group is a non-empty run of word bytes and its version group starts with HTTP/ |
| Auto.RequestLineLayout | proxy/acceptor/auto.py:13 | a line of HTTP_REQ_RE has method, space, target, space, version, CR and LF at consecutive places |
| Auto.RequestLineFirstByte | proxy/acceptor/auto.py:13 | a request line starts with the first byte of its method |
| Auto.PortAt | proxy/acceptor/auto.py:14 | the optional port group is a non-empty digit run |
| Auto.HostAt | proxy/acceptor/auto.py:14 | group 1 is a run of host bytes or a bracketed hex-and-colon literal |
| Auto.FindHostFrom | proxy/acceptor/auto.py:14 | search from index i finds the leftmost match of HTTP_HOST_RE at or after i, or reports that none exists |
| Auto.FindHost | proxy/acceptor/auto.py:14 | the leftmost match of HTTP_HOST_RE in the block, or none anywhere |
| Auto.HostNameOnly | proxy/acceptor/auto.py:14 | "Host: name" gives the name and no port |
| Auto.HostNamePort | proxy/acceptor/auto.py:14 | "Host: name:digits" gives the name and the digits |
| Auto.HostBracketed | proxy/acceptor/auto.py:14 | "Host: [hex]" gives the bracketed literal |
| Auto.SplitLines | proxy/acceptor/auto.py:75 | split('\r\n') gives at least one piece |
| Auto.JoinSplitLines | proxy/acceptor/auto.py:75 | JoinLines ('\r\n'.join) of the split pieces gives back the block |
| Auto.SplitLinesHaveNoCrlf | proxy/acceptor/auto.py:75 | no split piece contains CRLF |
| Auto.DropProxyHeaders | proxy/acceptor/auto.py:75-76 | the filter never adds lines |
| Auto.DropProxyHeadersMembers | proxy/acceptor/auto.py:75-76 | a line is kept exactly when it was there and does not start with "Proxy-" |
| Auto.DropProxyHeadersAppend | proxy/acceptor/auto.py:75-76 | the filter works line by line, so kept lines keep their order |
| Auto.DropProxyHeadersNone | proxy/acceptor/auto.py:75-76 | with no Proxy- line the filter changes nothing |
| Auto.RewrittenNoProxy | proxy/acceptor/auto.py:75-77 | with no Proxy- line the pushed-back bytes are the header block and its blank line, byte for byte |
| Auto.Rewritten | proxy/acceptor/auto.py:75-77 | the pushed-back block always ends with the blank line |
| Auto.ParseHttpHeaders | proxy/acceptor/auto.py:62-70 | ProtocolError('http','header') when either expression fails to match; otherwise succeeds exactly when int() accepts the port, and its only other failure is that ValueError |
| Auto.ParseHttpHeadersOf | proxy/acceptor/auto.py:62-70 | the result is the line's method and version and the Host match's address, or the ValueError of int() when the port is too long |
| Auto.ParseHttpHeadersNamePort | proxy/acceptor/auto.py:66-68 | a Host with ":port" of at most 4300 digits gives that name and decimal port |
| Auto.ParseHttpHeadersLongPort | proxy/acceptor/auto.py:66-68 | a Host with ":port" of more than 4300 digits raises int()'s ValueError |
| Auto.ParseHttpHeadersDefaultPort | proxy/acceptor/auto.py:68 | a Host without a port gives port 80 |
| Auto.ParseHttpHeadersBracketed | proxy/acceptor/auto.py:69-70 | a bracketed IPv6 Host loses its brackets |
| Auto.HostPort | proxy/acceptor/auto.py:68 | 80 without a port; otherwise int() of the digits, which raises ValueError for more than 4300 digits (CPython's default sys.int_max_str_digits), and is less than 10^k for k digits |
| Auto.HostPortOfDecimal | proxy/acceptor/auto.py:68 | the decimal text of a number of at most 4300 digits reads back as that number |
| Auto.StripBrackets | proxy/acceptor/auto.py:69-70 | a host not starting with '[' is kept; one that does loses exactly its first and last byte |
| Auto.HostLineParses | proxy/acceptor/auto.py:62-70 | a block whose first line is a request line and whose second is a Host line parses to that line's method and version and that host's address, or to int()'s ValueError when its port is too long |
| Auto.CheckGreeting | proxy/acceptor/auto.py:34-38 | passes exactly when the read is one whole greeting offering method 0 |
| Auto.ParseAutoAddr | proxy/acceptor/auto.py:40-53 | a success is the codec's encoding of the returned address, filling the read exactly; an unknown atyp is ProtocolError('socks5','header'); a known one fails with an index error (a 4-byte DOMAINNAME read) or a struct error |
| Auto.ParseAutoRequest | proxy/acceptor/auto.py:40-55 | a success is exactly a CONNECT request in the codec's encoding; the address's error comes first, and a bad ver, cmd or rsv after a parsed address is ProtocolError('socks5','header') |
| Auto.ParseAutoRequestOfEncoding | proxy/acceptor/auto.py:40-55 | every encoded CONNECT request parses back to its destination |
| Auto.AutoSocks5Of | proxy/acceptor/auto.py:33-57 | a success wrote 05 00 then the fixed 10-byte reply; a failure wrote a prefix of that |
| Auto.AutoSocks5RequestOf | proxy/acceptor/auto.py:40-57 | after 05 00: succeeds exactly when the read parses as a CONNECT request, returns its address, and only then writes the reply |
| Auto.AutoAcceptBranch | proxy/acceptor/auto.py:26-30 | byte 5 picks the SOCKS5 branch and any other byte the HTTP branch; the branch sees every byte, the peeked one included |
| Auto.AutoAcceptOf | proxy/acceptor/auto.py:26-31 | an empty stream is an index error with nothing written |
| Auto.AutoAcceptHttpBranch | proxy/acceptor/auto.py:26-30 | on a tame stream whose first byte is not 5, accept is the HTTP branch on every byte sent |
| Auto.AutoAcceptHttpConnect | proxy/acceptor/auto.py:21-78 | end to end: an HTTP CONNECT client whose port int() accepts is answered with '<ver> 200 Connection Established...', the Host line's address is returned, and the body stays unread |
| Auto.AutoAcceptSocks5 | proxy/acceptor/auto.py:33-57 | greeting and request in one chunk each: both replies written, the destination returned, later chunks unread |
| Auto.AutoSocks5RejectsSurplus | proxy/acceptor/auto.py:34-36 | a read that is not one whole greeting fails before any write |
| Auto.AutoHttpConnect | proxy/acceptor/auto.py:71-73 | CONNECT writes "<ver> 200 Connection Established\r\nConnection: close\r\n\r\n", pushes nothing back, and leaves the body unread |
| Auto.AutoHttpForward | proxy/acceptor/auto.py:74-77 | other methods write nothing, and the unread bytes are the rewritten block followed by the body |
| Auto.AutoHttpForwardVerbatim | proxy/acceptor/auto.py:74-77 | without Proxy- lines the next reader sees exactly what the client sent |
| Auto.AutoHttpOf | proxy/acceptor/auto.py:59-78 | a success needs the header block and both expressions to match; at most one write, and only on success |
| Auto.AutoHttpConnectTame | proxy/acceptor/auto.py:59-73 | on a tame stream, a CONNECT block ending at its first blank line, with a port int() accepts, is answered and its address returned, with the body unread |
| Auto.BlankLineFirst | proxy/acceptor/auto.py:60 | the first blank line of the header block is still the first one when a body follows |
| Auto.HTTPOrSocks5Acceptor.ParseAutoRequestRead | proxy/acceptor/auto.py:40-55 | readatleast(4), then the inline request parser |
| Auto.HTTPOrSocks5Acceptor.DispatchSocks5 | proxy/acceptor/auto.py:33-57 | writes, consumes and records exactly what AutoSocks5Of says |
| Auto.HTTPOrSocks5Acceptor.DispatchSocks5Request | proxy/acceptor/auto.py:38-57 | writes 05 00, reads the request and, when it parses, writes the reply and records the address, as AutoSocks5RequestOf says |
| Auto.HTTPOrSocks5Acceptor.DispatchHttp | proxy/acceptor/auto.py:59-78 | writes, pushes back and records exactly what AutoHttpOf says |
| Auto.HTTPOrSocks5Acceptor.Accept | proxy/acceptor/auto.py:21-31 | behaves as AutoAcceptOf; any failure closes every layer once; the layers under the stream keep their read state, writes and links |
| Auto.HTTPOrSocks5Acceptor.AcceptBody | proxy/acceptor/auto.py:26-31 | peek, then the branch the first byte picks, as AutoAcceptOf says; an empty peek is an index error |
| Trojan.HeaderSize | proxy/acceptor/trojan.py:26-43 | the header is 65 + buf[60] bytes for a domain, 68 for IPv4 and 80 for IPv6; a short buffer is an index error and any other atyp an invalid header |
| Trojan.ParseHeader | proxy/acceptor/trojan.py:26-47 | Corrected parse: a success means the buffer is a client header for the returned address, followed by exactly the returned rest; a password error means the first 56 bytes differ |
| Trojan.ParseHeaderAsWritten | proxy/acceptor/trojan.py:26-47 | AsWritten parse: only a domain header can succeed |
| Trojan.ParseHeaderWith | proxy/acceptor/trojan.py:26-47 | either variant: a success is a client header for the returned address followed by the returned rest; AsWritten only for a domain |
| Trojan.HeaderRoundTrip | proxy/acceptor/trojan.py:26-48 | every client header (Header) with the right password parses to its address, with exactly the following bytes as rest |
| Trojan.HeaderRejectsCommand | proxy/acceptor/trojan.py:44-45 | a command other than 1 is an invalid header whatever the password: validation comes before the password check |
| Trojan.HeaderRejectsPassword | proxy/acceptor/trojan.py:46-47 | a well-formed header with another password is refused as such |
| Trojan.ShortHeaderRejected | proxy/acceptor/trojan.py:25-41 | no proper prefix of a header is accepted: the header must come in the one read |
| Trojan.ParseHeaderAsWrittenRejectsIp | proxy/acceptor/trojan.py:32-41 | AsWritten, every well-formed IPv4 or IPv6 header fails to unpack, while the Corrected parse accepts it |
| Trojan.AcceptOf | proxy/acceptor/trojan.py:24-49 | one read, nothing left pending; a success means the read began with a header for the returned address and the returned rest; AsWritten only for a domain |
| Trojan.AcceptFirstChunk | proxy/acceptor/trojan.py:24-49 | a header, plus any payload, in the first chunk is accepted, with nothing left pending (domain: both variants; IP: Corrected) |
| Trojan.AcceptAsWrittenRejectsIp | proxy/acceptor/trojan.py:32-41 | AsWritten, an IPv4 or IPv6 header in the first chunk is refused with too many values to unpack, while Corrected accepts it |
| Trojan.TrojanAcceptor.constructor | proxy/acceptor/trojan.py:14-17 | only a 56-byte password is accepted, and it is stored with the variant |
| Trojan.TrojanAcceptor.Accept | proxy/acceptor/trojan.py:19-59 | one read, then the parse; a success sets addr and rest and returns the same stream, and a failure closes that stream once and passes the error on; AsWritten, an IP header is such a failure |
| Aead.Seal | proxy/contrib/v2rayn/stream/vmess.py:21 | sealing adds a 16-byte tag |
| Aead.Open | proxy/contrib/v2rayn/stream/vmess.py:27 | a ciphertext opens only to the plaintext it seals |
| Aead.OpenSeal | proxy/contrib/v2rayn/stream/vmess.py:19-29 | opening a sealed text under the same key and nonce gives back the plaintext |
| Vmess.Nonce | proxy/contrib/v2rayn/stream/vmess.py:20 | the nonce exists exactly when the counter fits 16 bits |
| Vmess.NextCount | proxy/contrib/v2rayn/stream/vmess.py:22 | the counter steps by one and 65535 wraps to 0 |
| Vmess.NonceInjective | proxy/contrib/v2rayn/stream/vmess.py:20 | different counters give different nonces |
| Vmess.AdvanceIsModular | proxy/contrib/v2rayn/stream/vmess.py:22 | after k messages the counter is (count + k) mod 65536 |
| Vmess.NoncesDistinctWithinCycle | proxy/contrib/v2rayn/stream/vmess.py:19-29 | no nonce repeats within 65536 consecutive messages of one direction |
| Vmess.EncryptOf | proxy/contrib/v2rayn/stream/vmess.py:19-23 | encrypt fails only for an out-of-range counter, which it leaves alone; otherwise the ciphertext is 16 bytes longer and the counter steps |
| Vmess.DecryptOf | proxy/contrib/v2rayn/stream/vmess.py:25-29 | what decrypts is what encrypt would seal at this counter, with the same new counter; a failure leaves the counter unchanged |
| Vmess.DecryptEncrypt | proxy/contrib/v2rayn/stream/vmess.py:19-29 | with equal key, iv and counter, decrypt undoes encrypt and both counters step alike |
| Vmess.FrameOf | proxy/contrib/v2rayn/stream/vmess.py:43-47 | a frame is the 2-byte ciphertext length, then the ciphertext; 65536 bytes or more is a struct error, after the counter has already stepped |
| Vmess.ReadOneFrameOf | proxy/contrib/v2rayn/stream/vmess.py:55-59 | after a non-empty peek: a plaintext comes from exactly one frame; a tag that fails consumed the whole frame its length announced |
| Vmess.ReadSealedOf | proxy/contrib/v2rayn/stream/vmess.py:56-59 | after the length prefix: the same, for the bytes the prefix announces |
| Vmess.FrameConsumed | proxy/contrib/v2rayn/stream/vmess.py:55-57 | a length prefix followed by that many bytes is one whole frame |
| Vmess.SealedFrame | proxy/contrib/v2rayn/stream/vmess.py:55-59 | a length prefix followed by a ciphertext that opens is exactly the frame write sends for the opened plaintext, and any such prefix and ciphertext is one whole frame |
| Vmess.ReadFrameOf | proxy/contrib/v2rayn/stream/vmess.py:50-59 | an empty peek is end of stream with the counter unchanged; otherwise exactly one frame is consumed, and a success is its plaintext; a tag that fails to verify consumed the whole frame its length announced; a failure leaves the counter unchanged |
| Vmess.FrameRoundTrip | proxy/contrib/v2rayn/stream/vmess.py:42-59 | a written frame reads back as its plaintext, consumes exactly the frame, and leaves both ends on the same counter |
| Vmess.CounteredAesGcm.constructor | proxy/contrib/v2rayn/stream/vmess.py:14-17 | key, iv and counter are stored |
| Vmess.CounteredAesGcm.Encrypt | proxy/contrib/v2rayn/stream/vmess.py:19-23 | computes EncryptOf and its new counter |
| Vmess.CounteredAesGcm.Decrypt | proxy/contrib/v2rayn/stream/vmess.py:25-29 | computes DecryptOf and its new counter |
| Vmess.VmessStream.constructor | proxy/contrib/v2rayn/stream/vmess.py:36-40 | the two cipher states and the next layer are stored |
| Vmess.VmessStream.WritePrimitive | proxy/contrib/v2rayn/stream/vmess.py:42-47 | at most one write to the next layer, the frame; the write counter becomes FrameOf's; a separate read counter is untouched |
| Vmess.VmessStream.ReadPrimitive | proxy/contrib/v2rayn/stream/vmess.py:49-59 | the result, the read counter and the next layer's state are ReadFrameOf's; a separate write counter is untouched |
| Proxy.Str | p3/stream/proxy.py:27-28 | renders '<', host, space, decimal port, space, decimal size of rest, 'B>' |
| Proxy.StrReadsBack | p3/stream/proxy.py:27-28 | the host, the port and the size of rest read back from their places in the rendering |
| Proxy.FromAcceptor | p3/stream/proxy.py:30-38 | rest is exactly the pending buffer, addr the acceptor's, and the stream is left with nothing pending |
| Inboxes.TopUpOf | p3/iobox/inbox.py:60-61 | with ensure_rest an empty rest becomes readatleast(1), so a success is non-empty; a non-empty rest is kept with no read; no byte is lost |
| Inboxes.HandOffRestores | p3/iobox/inbox.py:84-88 | the pop, the top-up and the push together hand on every byte in order, and restore the stream exactly when no read happened |
| Inboxes.Inbox.constructor | p3/iobox/inbox.py:16 | the ensure_rest attribute is stored |
| Inboxes.Inbox.Accept | p3/iobox/inbox.py:54-62 | computes TopUpOf; a failed read closes every layer once and is passed on; the layers under the stream keep their read state, writes and links |
| Inboxes.InboxWrappedAcceptor.constructor | p3/iobox/inbox.py:77-79 | the inbox is stored |
| Inboxes.InboxWrappedAcceptor.Accept | p3/iobox/inbox.py:81-88 | addr is the request's, and a non-empty rest is pushed back in front of the stream; the layers under the stream keep their read state, writes and links |

## Left out

- AES-GCM is not modelled. `Aead.Seal` and `Aead.Open` are a stand-in with no secrecy. The layer uses only three facts about them: the 16-byte tag, opening a sealed text, and only sealed texts opening. So the model says nothing about confidentiality, about a flipped ciphertext byte failing to decrypt, or about equal plaintexts giving different ciphertexts. The AESGCM key-size and nonce-size checks are not modelled either.
- `socket.inet_pton` / `inet_ntop` and UTF-8 `encode` / `decode` are not modelled. IP hosts are raw bytes and names are bytes, so a name that is not valid UTF-8 is not a failure in the model.
- Logging is not modelled, such as the debug message `write` logs for an empty buffer (proxy/stream/base.py:67).
- Auto.HostPort: INT_MAX_STR_DIGITS is CPython's default `sys.int_max_str_digits` (3.11 on, and the security releases of 3.7 to 3.10). An older interpreter has no limit, and the limit can be configured, so there the 4300 is another number or absent.
- Python's `re` engine is not modelled. The two expressions are deterministic scanners, and Python's Unicode `\w` is reduced to ASCII word bytes. The header block is bytes, not decoded text.
- `asyncio` is not modelled: scheduling, cancellation and `asyncio.shield` inside `cm`. Only the sequential effect is kept: close the chain, then pass the error on. `drain` has no effect in the model.
- The p3 stream helpers `readB`, `readH` and `read_struct` are not shown. They are modelled as `readexactly` of 1, 2 and the struct size.
- The p3 enum checks (`Socks5Ver.V5.ensure`, `Socks5Rsv.Zero.ensure`, `Socks5Cmd(v)`, `Socks5Rep(v)`, `Socks5AuthMethod(v)`, `Socks5Atyp(v)`) are not shown. An unknown or wrong code is modelled as a `Protocol` error naming the field; the real code may raise another exception type, such as ValueError. Only the error's label depends on this, not whether the decode fails.
- `VmessStream` inherits its buffered reads from `Stream`. Dafny has no inheritance, so only its two primitives are modelled, over the next layer. Their composition with the buffered readers is not.
- The acceptor chains (`next_layer.accept()`, `next_layer.connect(AUTH_REQ)`) and `accept_primitive` are not modelled. The methods take the stream and request those calls return. `Socks5Connector.Connect` records AUTH_REQ as the stream's first write.
- The URL, scheme and serialisation parts of `Inbox` (p3/iobox/inbox.py:19-52), and `Socks5Outbox`, are configuration, not protocol logic.
- Streams.Stream.CloseLayer: `close` and `wait_closed` of a real transport are not modelled. Only the number of attempts, and whether they fail, is kept.
- Socks5.ReadIpAsWrittenOf: an IPv4 or IPv6 decode is modelled as failing with TooManyValues once the 7 or 19 bytes are read (and with the read's own error before that), because `read_struct`'s code is not part of this model.
- Streams.UntilTame: success is proved only for tame streams (chunks of at most half STREAM_BUFSIZE) whose first separator ends within half the limit, because on other chunkings readuntil may pass the limit first (Streams.UntilOverrun states when it must).
- Trojan.ParseHeader: the address is not checked for being valid UTF-8 or a valid IP, because those checks are library calls.

## Findings

| source | as written | input that shows it | evidently intended | confidence | as-written member | corrected member |
|---|---|---|---|---|---|---|
| p3/contrib/basic/socks5.py:140-145 | The IPv4/IPv6 branches call read_struct with '!B4sH' / '!B16sH'. Those formats repeat the atyp byte, so 7 / 19 bytes are read, and three values are unpacked into two names. So the connector, as written, cannot complete a handshake against the acceptor's own REP, whose bound address is IPv4 (Socks5.ConnectAsWrittenFailsOnRep). | Stream bytes 01 01 02 03 04 00 50 00 (1.2.3.4 port 80, then one more byte) | read the 4 / 16 host bytes and the port ('!4sH' / '!16sH') | medium, not executed (read_struct is not shown) | Socks5.ReadAddrAsWrittenExample | Socks5.ReadAddrRoundTrip |
| proxy/acceptor/trojan.py:32-41 | The IPv4/IPv6 branches unpack the seven fields of '!56s2sBB4sH2s' / '!56s2sBB16sH2s' into six names, so `crlf2` is never bound. | Any 68-byte IPv4 header with the right password, e.g. password, CRLF, 01 01 7f 00 00 01 00 50, CRLF | bind all seven fields and check the trailing CRLF | high, not executed | Trojan.ParseHeaderAsWrittenRejectsIp | Trojan.HeaderRoundTrip |
