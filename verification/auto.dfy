/** The acceptor of proxy/acceptor/auto.py that serves SOCKS5 and HTTP
    proxy clients on one port: it peeks the first byte and runs either an
    inline SOCKS5 parser (which insists that each read ends exactly where
    its message does) or an HTTP/1.1 header parser, which answers CONNECT
    itself and, for any other method, pushes the header block back with its
    Proxy-* lines removed.

    The two regular expressions are modelled as the deterministic scanners
    they amount to on ASCII input: every `+` in them is followed by a byte
    the repeated class excludes, so each run is maximal and no backtracking
    can find a different match. */
module Auto {
  import opened Bytes
  import opened Errors
  import opened Addresses
  import opened Streams
  import opened Socks5

  const SP: byte := 0x20
  const CR: byte := 0x0d
  const LF: byte := 0x0a
  const COLON: byte := 0x3a
  const LBRACKET: byte := 0x5b
  const RBRACKET: byte := 0x5d

  /** "HTTP/" */
  const HTTP_SLASH: seq<byte> := [0x48, 0x54, 0x54, 0x50, 0x2f]
  /** "\r\nHost: " */
  const HOST_PREFIX: seq<byte> := [0x0d, 0x0a, 0x48, 0x6f, 0x73, 0x74, 0x3a, 0x20]
  /** "CONNECT" */
  const CONNECT: seq<byte> := [0x43, 0x4f, 0x4e, 0x4e, 0x45, 0x43, 0x54]
  /** "Proxy-" */
  const PROXY_PREFIX: seq<byte> := [0x50, 0x72, 0x6f, 0x78, 0x79, 0x2d]
  /** HTTP_RES_FORMAT after its "{}" placeholder:
      " 200 Connection Established\r\nConnection: close\r\n\r\n" */
  const RES_SUFFIX: seq<byte> := [
    0x20, 0x32, 0x30, 0x30, 0x20, 0x43, 0x6f, 0x6e, 0x6e, 0x65, 0x63, 0x74, 0x69, 0x6f, 0x6e, 0x20,
    0x45, 0x73, 0x74, 0x61, 0x62, 0x6c, 0x69, 0x73, 0x68, 0x65, 0x64, 0x0d, 0x0a, 0x43, 0x6f, 0x6e,
    0x6e, 0x65, 0x63, 0x74, 0x69, 0x6f, 0x6e, 0x3a, 0x20, 0x63, 0x6c, 0x6f, 0x73, 0x65, 0x0d, 0x0a,
    0x0d, 0x0a]

  const DEFAULT_HTTP_PORT: nat := 80
  /** CPython's default sys.int_max_str_digits: int() of a longer run of
      decimal digits raises ValueError. */
  const INT_MAX_STR_DIGITS: nat := 4300

  // ---------------------------------------------------------------------
  // Byte classes of the two regular expressions

  /** \w on ASCII: letters, digits and underscore. */
  predicate IsWordByte(b: byte)
  {
    IsDigit(b) || (0x41 <= b <= 0x5a) || (0x61 <= b <= 0x7a) || b == 0x5f
  }

  /** [^ ] */
  predicate NotSpace(b: byte)
  {
    b != SP
  }

  /** [^ \r\n] */
  predicate NotSpaceCrLf(b: byte)
  {
    b != SP && b != CR && b != LF
  }

  /** [^ :\[\]\r\n] */
  predicate IsHostByte(b: byte)
  {
    b != SP && b != COLON && b != LBRACKET && b != RBRACKET && b != CR && b != LF
  }

  /** [:0-9a-fA-F] */
  predicate IsHexColon(b: byte)
  {
    b == COLON || IsDigit(b) || (0x41 <= b <= 0x46) || (0x61 <= b <= 0x66)
  }

  /** The end of the longest run of bytes satisfying p that starts at k. */
  function Span(s: seq<byte>, k: nat, p: byte -> bool): (e: nat)
    requires k <= |s|
    ensures k <= e <= |s|
    ensures forall j :: k <= j < e ==> p(s[j])
    ensures e < |s| ==> !p(s[e])
    decreases |s| - k
  {
    if k < |s| && p(s[k]) then Span(s, k + 1, p) else k
  }

  /** A run that ends where p fails (or at the end) is the one Span finds. */
  lemma SpanIs(s: seq<byte>, k: nat, p: byte -> bool, e: nat)
    requires k <= e <= |s|
    requires forall j :: k <= j < e ==> p(s[j])
    requires e < |s| ==> !p(s[e])
    ensures Span(s, k, p) == e
  {
  }

  // ---------------------------------------------------------------------
  // HTTP_REQ_RE: ^(\w+) [^ ]+ (HTTP/[^ \r\n]+)\r\n

  /** The language of HTTP_REQ_RE: h starts with method, space, target,
      space, version and CRLF, each part drawn from its class. */
  predicate IsRequestLine(h: seq<byte>, meth: seq<byte>, target: seq<byte>, ver: seq<byte>)
  {
    && |meth| > 0 && (forall i :: 0 <= i < |meth| ==> IsWordByte(meth[i]))
    && |target| > 0 && (forall i :: 0 <= i < |target| ==> NotSpace(target[i]))
    && |ver| > 5 && ver[..5] == HTTP_SLASH && (forall i :: 5 <= i < |ver| ==> NotSpaceCrLf(ver[i]))
    && StartsWith(h, meth + [SP] + target + [SP] + ver + CRLF)
  }

  /** Where the parts of a request line sit in h. */
  lemma RequestLineLayout(h: seq<byte>, meth: seq<byte>, target: seq<byte>, ver: seq<byte>)
    requires IsRequestLine(h, meth, target, ver)
    ensures |meth| + |target| + |ver| + 4 <= |h|
    ensures h[..|meth|] == meth && h[|meth|] == SP
    ensures h[|meth| + 1..|meth| + 1 + |target|] == target && h[|meth| + 1 + |target|] == SP
    ensures h[|meth| + |target| + 2..|meth| + |target| + 2 + |ver|] == ver
    ensures h[|meth| + |target| + 2 + |ver|] == CR && h[|meth| + |target| + 3 + |ver|] == LF
  {
    var line := meth + [SP] + target + [SP] + ver + CRLF;
    var e1, e2, v := |meth|, |meth| + 1 + |target|, |meth| + |target| + 2;
    assert h[..|line|] == line;
    forall j | 0 <= j < |line| ensures h[j] == line[j] {
      assert h[j] == h[..|line|][j];
    }
    assert h[..e1] == meth;
    assert h[e1 + 1..e2] == target;
    assert h[v..v + |ver|] == ver;
  }

  /** The parts the scanner isolates form a line of the expression. */
  lemma RequestLineOfParts(h: seq<byte>, e1: nat, e2: nat, e3: nat)
    requires e1 < e2 < e3 && e3 + 2 <= |h|
    requires h[e1] == SP && h[e2] == SP && h[e3..e3 + 2] == CRLF
    ensures StartsWith(h, h[..e1] + [SP] + h[e1 + 1..e2] + [SP] + h[e2 + 1..e3] + CRLF)
  {
    var line := h[..e1] + [SP] + h[e1 + 1..e2] + [SP] + h[e2 + 1..e3] + CRLF;
    assert |line| == e3 + 2;
    forall j | 0 <= j < e3 + 2 ensures h[j] == line[j] {
      if j >= e3 {
        assert h[j] == h[e3..e3 + 2][j - e3];
      }
    }
  }

  /** Where the scanner for HTTP_REQ_RE ends the method, the target and the
      version runs, when each is non-empty and followed by what the
      expression wants. */
  predicate LineEndsAt(h: seq<byte>, e1: nat, e2: nat, e3: nat)
  {
    && 0 < e1 < |h|
    && (forall j :: 0 <= j < e1 ==> IsWordByte(h[j]))
    && h[e1] == SP
    && TargetRun(h, e1, e2, e3)
  }

  /** The target run from e1 + 1 to e2, a space, then the version run. */
  predicate TargetRun(h: seq<byte>, e1: nat, e2: nat, e3: nat)
  {
    && e1 + 1 < e2 < |h|
    && (forall j :: e1 + 1 <= j < e2 ==> NotSpace(h[j]))
    && h[e2] == SP
    && VersionRun(h, e2, e3)
  }

  /** "HTTP/" right after the space at e2, the rest of the version run up
      to e3, then CRLF. */
  predicate VersionRun(h: seq<byte>, e2: nat, e3: nat)
  {
    && e2 + 6 < e3 && e3 + 2 <= |h|
    && StartsWith(h[e2 + 1..], HTTP_SLASH)
    && (forall j :: e2 + 6 <= j < e3 ==> NotSpaceCrLf(h[j]))
    && StartsWith(h[e3..], CRLF)
  }

  /** The scanner for HTTP_REQ_RE: the ends of the three runs. */
  function LineEnds(h: seq<byte>): (r: Option<(nat, nat, nat)>)
    ensures r.Some? ==> LineEndsAt(h, r.value.0, r.value.1, r.value.2)
  {
    var e1 := Span(h, 0, IsWordByte);
    if e1 == 0 || e1 >= |h| || h[e1] != SP then None
    else TargetEnds(h, e1)
  }

  /** The scanner past the method and its space. */
  function TargetEnds(h: seq<byte>, e1: nat): (r: Option<(nat, nat, nat)>)
    requires e1 < |h|
    ensures r.Some? ==> r.value.0 == e1 && TargetRun(h, e1, r.value.1, r.value.2)
  {
    var e2 := Span(h, e1 + 1, NotSpace);
    if e2 == e1 + 1 || e2 >= |h| || h[e2] != SP then None
    else VersionEnds(h, e1, e2)
  }

  /** The scanner past the target and its space. */
  function VersionEnds(h: seq<byte>, e1: nat, e2: nat): (r: Option<(nat, nat, nat)>)
    requires e2 < |h|
    ensures r.Some? ==> r.value.0 == e1 && r.value.1 == e2 && VersionRun(h, e2, r.value.2)
  {
    var v := e2 + 1;
    if !StartsWith(h[v..], HTTP_SLASH) then None
    else
      assert v + 5 <= |h| by {
        assert |HTTP_SLASH| <= |h[v..]|;
      }
      var e3 := Span(h, v + 5, NotSpaceCrLf);
      if e3 == v + 5 || !StartsWith(h[e3..], CRLF) then None
      else
        assert e3 + 2 <= |h| by {
          assert |CRLF| <= |h[e3..]|;
        }
        Some((e1, e2, e3))
  }

  /** http_req_re.search(headers): groups 1 and 2, the method and version. */
  function ParseRequestLine(h: seq<byte>): (r: Option<(seq<byte>, seq<byte>)>)
    ensures r.Some? ==> |r.value.0| > 0 && forall i :: 0 <= i < |r.value.0| ==> IsWordByte(r.value.0[i])
    ensures r.Some? ==> |r.value.1| > 5 && r.value.1[..5] == HTTP_SLASH
  {
    match LineEnds(h)
    case None => None
    case Some((e1, e2, e3)) => Some((h[..e1], h[e2 + 1..e3]))
  }

  /** Whatever the scanner matches is a line of HTTP_REQ_RE, with the groups
      it returns. */
  lemma ParseRequestLineSound(h: seq<byte>)
    ensures ParseRequestLine(h).Some? ==>
      exists target :: IsRequestLine(h, ParseRequestLine(h).value.0, target, ParseRequestLine(h).value.1)
  {
    match LineEnds(h)
    case None =>
    case Some((e1, e2, e3)) =>
      PartsFormLine(h, e1, e2, e3);
  }

  /** Runs that end at e1, e2 and e3 as the scanner wants them are a line
      of HTTP_REQ_RE. */
  lemma PartsFormLine(h: seq<byte>, e1: nat, e2: nat, e3: nat)
    requires LineEndsAt(h, e1, e2, e3)
    ensures IsRequestLine(h, h[..e1], h[e1 + 1..e2], h[e2 + 1..e3])
  {
    var v := e2 + 1;
    var meth, target, ver := h[..e1], h[e1 + 1..e2], h[v..e3];
    RunOut(h, 0, e1, IsWordByte);
    RunOut(h, e1 + 1, e2, NotSpace);
    RunOut(h, v + 5, e3, NotSpaceCrLf);
    assert ver[..5] == h[v..][..5];
    assert forall i :: 5 <= i < |ver| ==> ver[i] == h[v + 5..e3][i - 5];
    assert h[e3..e3 + 2] == h[e3..][..2];
    RequestLineOfParts(h, e1, e2, e3);
  }

  /** A run of p in h, cut out, is a sequence of bytes satisfying p. */
  lemma RunOut(h: seq<byte>, k: nat, e: nat, p: byte -> bool)
    requires k <= e <= |h|
    requires forall j :: k <= j < e ==> p(h[j])
    ensures forall i :: 0 <= i < e - k ==> p(h[k..e][i])
  {
    forall i | 0 <= i < e - k ensures p(h[k..e][i]) {
      assert h[k..e][i] == h[k + i];
    }
  }

  /** The scanner finds every line the expression describes, with the same
      groups: together with ParseRequestLineSound, the scanner accepts
      exactly the language of HTTP_REQ_RE. */
  lemma ParseRequestLineComplete(h: seq<byte>, meth: seq<byte>, target: seq<byte>, ver: seq<byte>)
    requires IsRequestLine(h, meth, target, ver)
    ensures ParseRequestLine(h) == Some((meth, ver))
  {
    var e1, e2 := |meth|, |meth| + 1 + |target|;
    var e3 := e2 + 1 + |ver|;
    LineOfParts(h, meth, target, ver);
    assert h[..e1] == meth && h[e2 + 1..e3] == ver;
    ParseRequestLineAt(h, e1, e2, e3);
    assert ParseRequestLine(h) == Some((h[..e1], h[e2 + 1..e3]));
  }

  /** A line of HTTP_REQ_RE has its runs where the scanner ends them. */
  lemma LineOfParts(h: seq<byte>, meth: seq<byte>, target: seq<byte>, ver: seq<byte>)
    requires IsRequestLine(h, meth, target, ver)
    ensures var e1, e2 := |meth|, |meth| + 1 + |target|;
      && LineEndsAt(h, e1, e2, e2 + 1 + |ver|)
      && h[..e1] == meth && h[e2 + 1..e2 + 1 + |ver|] == ver
  {
    RequestLineLayout(h, meth, target, ver);
    var e1, e2, v := |meth|, |meth| + 1 + |target|, |meth| + |target| + 2;
    RunIn(h, 0, meth, IsWordByte);
    RunIn(h, e1 + 1, target, NotSpace);
    VersionIn(h, v, ver);
  }

  /** A part whose bytes all satisfy p, placed at k, is a run of p in h. */
  lemma RunIn(h: seq<byte>, k: nat, part: seq<byte>, p: byte -> bool)
    requires k + |part| <= |h| && h[k..k + |part|] == part
    requires forall i :: 0 <= i < |part| ==> p(part[i])
    ensures forall j :: k <= j < k + |part| ==> p(h[j])
  {
    forall j | k <= j < k + |part| ensures p(h[j]) {
      assert h[j] == part[j - k];
    }
  }

  /** The version group placed at v and followed by CRLF, as the scanner
      sees it. */
  lemma VersionIn(h: seq<byte>, v: nat, ver: seq<byte>)
    requires v + |ver| + 2 <= |h| && h[v..v + |ver|] == ver
    requires |ver| > 5 && ver[..5] == HTTP_SLASH && (forall i :: 5 <= i < |ver| ==> NotSpaceCrLf(ver[i]))
    requires h[v + |ver|] == CR && h[v + |ver| + 1] == LF
    ensures StartsWith(h[v..], HTTP_SLASH) && StartsWith(h[v + |ver|..], CRLF)
    ensures forall j :: v + 5 <= j < v + |ver| ==> NotSpaceCrLf(h[j])
  {
    assert h[v..][..5] == ver[..5];
    assert h[v + |ver|..][..2] == CRLF;
    forall j | v + 5 <= j < v + |ver| ensures NotSpaceCrLf(h[j]) {
      assert h[j] == ver[j - v];
    }
  }

  /** The scanner's steps on a line whose runs end at e1, e2 and e3. */
  lemma ParseRequestLineAt(h: seq<byte>, e1: nat, e2: nat, e3: nat)
    requires LineEndsAt(h, e1, e2, e3)
    ensures ParseRequestLine(h) == Some((h[..e1], h[e2 + 1..e3]))
  {
    SpanIs(h, 0, IsWordByte, e1);
    assert LineEnds(h) == TargetEnds(h, e1);
    TargetEndsAt(h, e1, e2, e3);
  }

  lemma TargetEndsAt(h: seq<byte>, e1: nat, e2: nat, e3: nat)
    requires e1 < |h| && TargetRun(h, e1, e2, e3)
    ensures TargetEnds(h, e1) == Some((e1, e2, e3))
  {
    VersionEndsAt(h, e1, e2, e3);
    assert !NotSpace(h[e2]);
    SpanIs(h, e1 + 1, NotSpace, e2);
  }

  lemma VersionEndsAt(h: seq<byte>, e1: nat, e2: nat, e3: nat)
    requires e2 < |h| && VersionRun(h, e2, e3)
    ensures VersionEnds(h, e1, e2) == Some((e1, e2, e3))
  {
    assert h[e3] == CR;
    SpanIs(h, e2 + 6, NotSpaceCrLf, e3);
  }

  // ---------------------------------------------------------------------
  // HTTP_HOST_RE: \r\nHost: ([^ :\[\]\r\n]+|\[[:0-9a-fA-F]+\])(:([0-9]+))?

  /** The optional (:([0-9]+)) group at index k: its digits, if present. */
  function PortAt(h: seq<byte>, k: nat): (r: Option<seq<byte>>)
    requires k <= |h|
    ensures r.Some? ==> |r.value| > 0 && forall i :: 0 <= i < |r.value| ==> IsDigit(r.value[i])
  {
    if k < |h| && h[k] == COLON then
      var e := Span(h, k + 1, IsDigit);
      if e > k + 1 then Some(h[k + 1..e]) else None
    else None
  }

  /** The host alternatives at index k, right after "\r\nHost: ": group 1
      and the port group, if the alternation matches there. */
  function HostAt(h: seq<byte>, k: nat): (r: Option<(seq<byte>, Option<seq<byte>>)>)
    requires k <= |h|
    ensures r.Some? ==> |r.value.0| > 0
    ensures r.Some? && r.value.0[0] != LBRACKET ==> forall i :: 0 <= i < |r.value.0| ==> IsHostByte(r.value.0[i])
    ensures r.Some? && r.value.0[0] == LBRACKET ==>
      && |r.value.0| >= 3 && r.value.0[|r.value.0| - 1] == RBRACKET
      && forall i :: 1 <= i < |r.value.0| - 1 ==> IsHexColon(r.value.0[i])
  {
    var e := Span(h, k, IsHostByte);
    if e > k then Some((h[k..e], PortAt(h, e)))
    else if k < |h| && h[k] == LBRACKET then
      var e2 := Span(h, k + 1, IsHexColon);
      if e2 > k + 1 && e2 < |h| && h[e2] == RBRACKET then Some((h[k..e2 + 1], PortAt(h, e2 + 1)))
      else None
    else None
  }

  /** The whole expression matches at index i. */
  predicate HostMatchAt(h: seq<byte>, i: nat)
  {
    i + |HOST_PREFIX| <= |h| && h[i..i + |HOST_PREFIX|] == HOST_PREFIX && HostAt(h, i + |HOST_PREFIX|).Some?
  }

  /** http_host_re.search(headers) from index i on: the leftmost match. */
  function FindHostFrom(h: seq<byte>, i: nat): (r: Option<(seq<byte>, Option<seq<byte>>)>)
    ensures r.Some? ==>
      exists j: nat ::
        && i <= j && HostMatchAt(h, j) && r == HostAt(h, j + |HOST_PREFIX|)
        && forall j': nat :: i <= j' < j ==> !HostMatchAt(h, j')
    ensures r.None? ==> forall j: nat :: i <= j ==> !HostMatchAt(h, j)
    decreases |h| - i
  {
    if i + |HOST_PREFIX| > |h| then None
    else if h[i..i + |HOST_PREFIX|] == HOST_PREFIX && HostAt(h, i + |HOST_PREFIX|).Some? then
      assert HostMatchAt(h, i);
      HostAt(h, i + |HOST_PREFIX|)
    else FindHostFrom(h, i + 1)
  }

  /** http_host_re.search(headers): the leftmost match, or none anywhere. */
  function FindHost(h: seq<byte>): (r: Option<(seq<byte>, Option<seq<byte>>)>)
    ensures r.Some? ==>
      exists j: nat ::
        && HostMatchAt(h, j) && r == HostAt(h, j + |HOST_PREFIX|)
        && forall j': nat :: j' < j ==> !HostMatchAt(h, j')
    ensures r.None? ==> forall j: nat :: !HostMatchAt(h, j)
  {
    FindHostFrom(h, 0)
  }

  /** When no CR comes before index n and "\r\nHost: " starts at n with a
      host after it, the search finds that one: a match must start with CR. */
  lemma {:induction false} FindHostFirstCr(h: seq<byte>, n: nat, i: nat)
    requires n + |HOST_PREFIX| <= |h| && h[n..n + |HOST_PREFIX|] == HOST_PREFIX
    requires forall j :: 0 <= j < n ==> h[j] != CR
    requires HostAt(h, n + |HOST_PREFIX|).Some?
    requires i <= n
    ensures FindHostFrom(h, i) == HostAt(h, n + |HOST_PREFIX|)
    decreases n - i
  {
    if i < n {
      assert h[i..i + |HOST_PREFIX|][0] == h[i] != CR;
      FindHostFirstCr(h, n, i + 1);
    }
  }

  /** The search over a block that starts with a CR-free line followed by
      "\r\nHost: " and a host finds that host. */
  lemma HostAfterLine(h: seq<byte>, line: seq<byte>)
    requires forall j :: 0 <= j < |line| ==> line[j] != CR
    requires StartsWith(h, line + HOST_PREFIX)
    requires HostAt(h, |line| + |HOST_PREFIX|).Some?
    ensures FindHost(h) == HostAt(h, |line| + |HOST_PREFIX|)
  {
    var n := |line| + |HOST_PREFIX|;
    forall j | 0 <= j < |line| ensures h[j] != CR {
      assert h[j] == h[..n][j] == line[j];
    }
    assert h[|line|..n] == h[..n][|line|..] == HOST_PREFIX;
    FindHostFirstCr(h, |line|, 0);
  }

  /** Host without a port: "name" followed by the end of the block or a CR. */
  lemma HostNameOnly(pre: seq<byte>, name: seq<byte>, post: seq<byte>)
    requires |name| > 0 && forall i :: 0 <= i < |name| ==> IsHostByte(name[i])
    requires post == [] || post[0] == CR
    ensures HostAt(pre + name + post, |pre|) == Some((name, None))
  {
    var h := pre + name + post;
    var k, e := |pre|, |pre| + |name|;
    forall j | k <= j < e ensures IsHostByte(h[j]) {
      assert h[j] == name[j - k];
    }
    if e < |h| {
      assert h[e] == post[0];
    }
    SpanIs(h, k, IsHostByte, e);
    assert h[k..e] == name;
  }

  /** Host with a port: "name:digits" followed by the end or a CR. */
  lemma HostNamePort(pre: seq<byte>, name: seq<byte>, ds: seq<byte>, post: seq<byte>)
    requires |name| > 0 && forall i :: 0 <= i < |name| ==> IsHostByte(name[i])
    requires |ds| > 0 && forall i :: 0 <= i < |ds| ==> IsDigit(ds[i])
    requires post == [] || post[0] == CR
    ensures HostAt(pre + name + [COLON] + ds + post, |pre|) == Some((name, Some(ds)))
  {
    var h := pre + name + [COLON] + ds + post;
    var k, e := |pre|, |pre| + |name|;
    assert h[k..e] == name;
    RunIn(h, k, name, IsHostByte);
    assert h[e] == COLON;
    SpanIs(h, k, IsHostByte, e);
    assert h[e + 1..e + 1 + |ds|] == ds;
    if e + 1 + |ds| < |h| {
      assert h[e + 1 + |ds|] == post[0];
    }
    PortAtDigits(h, e, ds);
  }

  /** ":digits" at e, not followed by another digit, is the port group. */
  lemma PortAtDigits(h: seq<byte>, e: nat, ds: seq<byte>)
    requires e + 1 + |ds| <= |h| && h[e] == COLON && h[e + 1..e + 1 + |ds|] == ds
    requires |ds| > 0 && forall i :: 0 <= i < |ds| ==> IsDigit(ds[i])
    requires e + 1 + |ds| < |h| ==> !IsDigit(h[e + 1 + |ds|])
    ensures PortAt(h, e) == Some(ds)
  {
    RunIn(h, e + 1, ds, IsDigit);
    SpanIs(h, e + 1, IsDigit, e + 1 + |ds|);
  }

  /** A bracketed IPv6 literal "[hex]" followed by the end or a CR. */
  lemma HostBracketed(pre: seq<byte>, lit: seq<byte>, post: seq<byte>)
    requires |lit| > 0 && forall i :: 0 <= i < |lit| ==> IsHexColon(lit[i])
    requires post == [] || post[0] == CR
    ensures HostAt(pre + [LBRACKET] + lit + [RBRACKET] + post, |pre|) == Some(([LBRACKET] + lit + [RBRACKET], None))
  {
    var h := pre + [LBRACKET] + lit + [RBRACKET] + post;
    var k, e := |pre|, |pre| + 1 + |lit|;
    assert h[k] == LBRACKET;
    SpanIs(h, k, IsHostByte, k);
    forall j | k + 1 <= j < e ensures IsHexColon(h[j]) {
      assert h[j] == lit[j - k - 1];
    }
    assert h[e] == RBRACKET;
    SpanIs(h, k + 1, IsHexColon, e);
    assert h[k..e + 1] == [LBRACKET] + lit + [RBRACKET];
    if e + 1 < |h| {
      assert h[e + 1] == post[0];
    }
  }

  // ---------------------------------------------------------------------
  // The header block

  /** headers.split('\r\n') */
  function SplitLines(s: seq<byte>): (ls: seq<seq<byte>>)
    ensures |ls| > 0
    decreases |s|
  {
    match IndexFrom(s, CRLF, 0)
    case None => [s]
    case Some(i) => [s[..i]] + SplitLines(s[i + 2..])
  }

  /** '\r\n'.join(lines) */
  function JoinLines(ls: seq<seq<byte>>): (s: seq<byte>)
  {
    if ls == [] then []
    else if |ls| == 1 then ls[0]
    else ls[0] + CRLF + JoinLines(ls[1..])
  }

  /** Joining the pieces of a split gives back the block. */
  lemma {:induction false} JoinSplitLines(s: seq<byte>)
    ensures JoinLines(SplitLines(s)) == s
    decreases |s|
  {
    match IndexFrom(s, CRLF, 0)
    case None =>
    case Some(i) =>
      JoinSplitLines(s[i + 2..]);
      assert s[i..i + 2] == CRLF;
      assert s == s[..i] + CRLF + s[i + 2..];
  }

  /** No piece of a split contains CRLF. */
  lemma {:induction false} SplitLinesHaveNoCrlf(s: seq<byte>)
    ensures forall l, j: nat :: l in SplitLines(s) ==> !OccursAt(l, CRLF, j)
    decreases |s|
  {
    match IndexFrom(s, CRLF, 0)
    case None =>
    case Some(i) =>
      SplitLinesHaveNoCrlf(s[i + 2..]);
      forall j: nat ensures !OccursAt(s[..i], CRLF, j) {
        if j + 2 <= i {
          assert !OccursAt(s, CRLF, j);
          assert s[..i][j..j + 2] == s[j..j + 2];
        }
      }
  }

  predicate IsProxyHeader(line: seq<byte>)
  {
    StartsWith(line, PROXY_PREFIX)
  }

  /** The comprehension of dispatch_http: the lines not starting with
      "Proxy-", in their order. */
  function DropProxyHeaders(ls: seq<seq<byte>>): (r: seq<seq<byte>>)
    ensures |r| <= |ls|
  {
    if ls == [] then []
    else (if IsProxyHeader(ls[0]) then [] else [ls[0]]) + DropProxyHeaders(ls[1..])
  }

  /** The filter keeps exactly the lines that are not Proxy- headers. */
  lemma {:induction false} DropProxyHeadersMembers(ls: seq<seq<byte>>)
    ensures forall l :: l in DropProxyHeaders(ls) <==> l in ls && !IsProxyHeader(l)
  {
    if ls != [] {
      DropProxyHeadersMembers(ls[1..]);
      assert ls == [ls[0]] + ls[1..];
    }
  }

  /** The filter works line by line, so the kept lines keep their order. */
  lemma {:induction false} DropProxyHeadersAppend(a: seq<seq<byte>>, b: seq<seq<byte>>)
    ensures DropProxyHeaders(a + b) == DropProxyHeaders(a) + DropProxyHeaders(b)
  {
    if a == [] {
      assert a + b == b;
    } else {
      assert (a + b)[1..] == a[1..] + b;
      DropProxyHeadersAppend(a[1..], b);
    }
  }

  /** Without Proxy- lines the filter changes nothing. */
  lemma {:induction false} DropProxyHeadersNone(ls: seq<seq<byte>>)
    requires forall i :: 0 <= i < |ls| ==> !IsProxyHeader(ls[i])
    ensures DropProxyHeaders(ls) == ls
  {
    if ls != [] {
      DropProxyHeadersNone(ls[1..]);
      assert ls == [ls[0]] + ls[1..];
    }
  }

  /** What dispatch_http pushes back for a method other than CONNECT. */
  function Rewritten(headers: seq<byte>): (r: seq<byte>)
    ensures |r| >= 4 && r[|r| - 4..] == CRLFCRLF
  {
    JoinLines(DropProxyHeaders(SplitLines(headers))) + CRLFCRLF
  }

  /** With no Proxy- line, the pushed-back bytes are the header block and
      its terminator exactly as they arrived. */
  lemma RewrittenNoProxy(headers: seq<byte>)
    requires forall l :: l in SplitLines(headers) ==> !IsProxyHeader(l)
    ensures Rewritten(headers) == headers + CRLFCRLF
  {
    var ls := SplitLines(headers);
    forall i | 0 <= i < |ls| ensures !IsProxyHeader(ls[i]) {
      assert ls[i] in ls;
    }
    DropProxyHeadersNone(ls);
    JoinSplitLines(headers);
  }

  /** The port the Host header gives: 80 when it gives none, otherwise
      int() of its digits, which fails past INT_MAX_STR_DIGITS digits. */
  function HostPort(port: Option<seq<byte>>): (r: Result<nat>)
    requires port.Some? ==> forall i :: 0 <= i < |port.value| ==> IsDigit(port.value[i])
    ensures port.None? ==> r == Ok(DEFAULT_HTTP_PORT)
    ensures port.Some? ==> (r.Ok? <==> |port.value| <= INT_MAX_STR_DIGITS)
    ensures r.Err? ==> r.error == DigitLimit
    ensures r.Ok? && port.Some? ==> r.value < Pow10(|port.value|)
  {
    if port.None? then Ok(DEFAULT_HTTP_PORT)
    else if |port.value| > INT_MAX_STR_DIGITS then Err(DigitLimit)
    else Ok(ParseDecimal(port.value))
  }

  /** The decimal text of any number of at most INT_MAX_STR_DIGITS digits
      reads back as that number. */
  lemma HostPortOfDecimal(n: nat)
    requires |Decimal(n)| <= INT_MAX_STR_DIGITS
    ensures HostPort(Some(Decimal(n))) == Ok(n)
  {
    ParseDecimalOfDecimal(n);
  }

  /** addr[1:-1] when addr starts with '['. */
  function StripBrackets(host: seq<byte>): (r: seq<byte>)
    requires |host| > 0
    ensures host[0] != LBRACKET ==> r == host
    ensures host[0] == LBRACKET && |host| >= 2 ==> host == [host[0]] + r + [host[|host| - 1]]
    ensures |r| <= |host|
  {
    if host[0] == LBRACKET then (if |host| >= 2 then host[1..|host| - 1] else []) else host
  }

  /** The parse of dispatch_http: method, version and the target address. */
  function ParseHttpHeaders(headers: seq<byte>): (r: Result<(seq<byte>, seq<byte>, Address)>)
    ensures ParseRequestLine(headers).None? || FindHost(headers).None? ==> r == Err(Protocol("http", "header"))
    ensures ParseRequestLine(headers).Some? && FindHost(headers).Some? ==>
              (r.Ok? <==> HostPort(FindHost(headers).value.1).Ok?) && (r.Err? ==> r.error == DigitLimit)
  {
    var req := ParseRequestLine(headers);
    var host := FindHost(headers);
    if req.None? || host.None? then Err(Protocol("http", "header"))
    else
      var (meth, ver) := req.value;
      var (name, port) := host.value;
      match HostPort(port)
      case Err(e) => Err(e)
      case Ok(p) => Ok((meth, ver, Address(StripBrackets(name), p)))
  }

  // ---------------------------------------------------------------------
  // The inline SOCKS5 parser of dispatch_socks5

  /** struct.unpack(f'!BB{nmeths}s', buf) and the checks after it: the
      greeting must fill the read exactly, say version 5 and offer method 0. */
  function CheckGreeting(buf: seq<byte>): (r: Outcome)
    requires |buf| >= 3
    ensures r.Pass? <==> EncodeAuthRequest(AuthRequest(buf[2..])) == Ok(buf) && NO_AUTHENTICATION_REQUIRED in buf[2..]
  {
    if |buf| != 2 + buf[1] as nat then Fail(StructError)
    else if buf[0] != VER5 || NO_AUTHENTICATION_REQUIRED !in buf[2..] then Fail(Protocol("socks5", "auth"))
    else
      assert buf == [buf[0], buf[1]] + buf[2..];
      Pass
  }

  /** The address part of the request half of dispatch_socks5: byte 3
      picks the layout, and its struct must span the whole read (buf[4] is
      read before the length check, so a 4-byte read of a DOMAINNAME
      request is an index error). A success is the codec's encoding of the
      address it returns. */
  function ParseAutoAddr(buf: seq<byte>): (r: Result<Socks5Addr>)
    requires |buf| >= 4
    ensures r.Ok? ==> AtypOf(buf[3]) == Some(r.value.atyp)
    ensures r.Ok? ==> EncodeAddr(r.value) == Ok(buf[3..])
    ensures AtypOf(buf[3]).None? ==> r == Err(Protocol("socks5", "header"))
    ensures AtypOf(buf[3]).Some? && r.Err? ==>
              r.error == (if buf[3] == AtypCode(DOMAINNAME) && |buf| < 5 then IndexError else StructError)
  {
    var n := |buf|;
    if buf[3] == AtypCode(DOMAINNAME) then
      if n < 5 then Err(IndexError)
      else if n != 7 + buf[4] as nat then Err(StructError)
      else
        var a := Socks5Addr(DOMAINNAME, Address(buf[5..n - 2], Unpack16(buf[n - 2..]) as nat));
        Pack16Unpack16(buf[n - 2..]);
        assert buf[3..] == [buf[3], buf[4]] + buf[5..n - 2] + buf[n - 2..];
        Ok(a)
    else if buf[3] == AtypCode(IPV4) || buf[3] == AtypCode(IPV6) then
      var atyp := if buf[3] == AtypCode(IPV4) then IPV4 else IPV6;
      if n != 6 + IpSize(atyp) then Err(StructError)
      else
        var a := Socks5Addr(atyp, Address(buf[4..n - 2], Unpack16(buf[n - 2..]) as nat));
        Pack16Unpack16(buf[n - 2..]);
        assert buf[3..] == [buf[3]] + buf[4..n - 2] + buf[n - 2..];
        Ok(a)
    else Err(Protocol("socks5", "header"))
  }

  /** The request half of dispatch_socks5: the address, then version,
      command and reserved byte are checked. A success is exactly a CONNECT
      request in the encoding of the SOCKS5 codec. */
  function ParseAutoRequest(buf: seq<byte>): (r: Result<Address>)
    requires |buf| >= 4
    ensures r.Ok? ==> AtypOf(buf[3]).Some?
    ensures r.Ok? ==> EncodeRequest(Request(CMD_CONNECT, Socks5Addr(AtypOf(buf[3]).value, r.value))) == Ok(buf)
    ensures ParseAutoAddr(buf).Err? ==> r == Err(ParseAutoAddr(buf).error)
    ensures ParseAutoAddr(buf).Ok? && (buf[0] != VER5 || buf[1] != CMD_CONNECT || buf[2] != RSV_ZERO)
            ==> r == Err(Protocol("socks5", "header"))
  {
    var parsed := ParseAutoAddr(buf);
    if parsed.Err? then Err(parsed.error)
    else if buf[0] != VER5 || buf[1] != CMD_CONNECT || buf[2] != RSV_ZERO then Err(Protocol("socks5", "header"))
    else
      assert buf == [buf[0], buf[1], buf[2]] + buf[3..];
      Ok(parsed.value.addr)
  }

  /** The inline parser reads back every CONNECT request the codec encodes. */
  lemma ParseAutoRequestOfEncoding(dst: Socks5Addr)
    requires Encodable(dst)
    ensures ParseAutoRequest(EncodeRequest(Request(CMD_CONNECT, dst)).value) == Ok(dst.addr)
  {
    var buf := EncodeRequest(Request(CMD_CONNECT, dst)).value;
    var n := |buf|;
    var pk := Pack16(dst.addr.port as uint16);
    Unpack16Pack16(dst.addr.port as uint16);
    if dst.atyp == DOMAINNAME {
      assert buf == [VER5, CMD_CONNECT, RSV_ZERO, AtypCode(dst.atyp), |dst.addr.host| as byte] + dst.addr.host + pk;
      assert buf[n - 2..] == pk;
      assert buf[5..n - 2] == dst.addr.host;
    } else {
      assert buf == [VER5, CMD_CONNECT, RSV_ZERO, AtypCode(dst.atyp)] + dst.addr.host + pk;
      assert buf[n - 2..] == pk;
      assert buf[4..n - 2] == dst.addr.host;
    }
  }

  /** dispatch_socks5 of the auto acceptor on the read side st. */
  function AutoSocks5Of(st: State): (h: Handshake<Address>)
    ensures h.result.Ok? ==> h.writes == [AUTH_REP, REP]
    ensures h.writes == [] || h.writes == [AUTH_REP] || h.writes == [AUTH_REP, REP]
  {
    var g := AtLeastOf(3, st);
    if g.0.Err? then Handshake(Err(g.0.error), [], g.1)
    else match CheckGreeting(g.0.value)
      case Fail(e) => Handshake(Err(e), [], g.1)
      case Pass => AutoSocks5RequestOf(g.1)
  }

  /** The part of dispatch_socks5 after the greeting passed: accept "no
      authentication", then read and parse the request. */
  function AutoSocks5RequestOf(st: State): (h: Handshake<Address>)
    ensures h.writes == (if h.result.Ok? then [AUTH_REP, REP] else [AUTH_REP])
    ensures h.result.Ok? ==> AtLeastOf(4, st).0.Ok? && ParseAutoRequest(AtLeastOf(4, st).0.value) == Ok(h.result.value)
  {
    var q := AtLeastOf(4, st);
    if q.0.Err? then Handshake(Err(q.0.error), [AUTH_REP], q.1)
    else match ParseAutoRequest(q.0.value)
      case Err(e) => Handshake(Err(e), [AUTH_REP], q.1)
      case Ok(a) => Handshake(Ok(a), [AUTH_REP, REP], q.1)
  }

  /** dispatch_http on the read side st. */
  function AutoHttpOf(st: State): (h: Handshake<Address>)
    ensures h.result.Ok? ==> UntilOf(CRLFCRLF, true, st).0.Ok? && ParseHttpHeaders(UntilOf(CRLFCRLF, true, st).0.value).Ok?
    ensures h.writes != [] ==> h.result.Ok? && |h.writes| == 1
  {
    var u := UntilOf(CRLFCRLF, true, st);
    if u.0.Err? then Handshake(Err(u.0.error), [], u.1)
    else match ParseHttpHeaders(u.0.value)
      case Err(e) => Handshake(Err(e), [], u.1)
      case Ok((meth, ver, addr)) =>
        if meth == CONNECT then Handshake(Ok(addr), WriteLog(ver + RES_SUFFIX), u.1)
        else Handshake(Ok(addr), [], Pushed(Rewritten(u.0.value), u.1))
  }

  /** accept: peek, then dispatch on the first byte (an empty peek is an
      index error). */
  function AutoAcceptOf(st: State): (h: Handshake<Address>)
    ensures Unconsumed(st) == [] ==> h.result == Err(IndexError) && h.writes == []
  {
    var p := PeekOf(st);
    if |p.0| == 0 then Handshake(Err(IndexError), [], p.1)
    else if p.0[0] == VER5 then AutoSocks5Of(p.1)
    else AutoHttpOf(p.1)
  }

  // ---------------------------------------------------------------------
  // Properties of the two branches

  /** The first byte decides the branch, and the branch sees every byte
      the client sent, that first byte included. */
  lemma AutoAcceptBranch(st: State)
    requires Tame(st) && |Unconsumed(st)| > 0
    ensures exists st': State ::
      && Unconsumed(st') == Unconsumed(st)
      && AutoAcceptOf(st) == (if Unconsumed(st)[0] == VER5 then AutoSocks5Of(st') else AutoHttpOf(st'))
  {
    PeekTame(st);
    var st' := PeekOf(st).1;
    assert Unconsumed(st') == Unconsumed(st);
  }

  /** A SOCKS5 client whose greeting and request each arrive as one chunk
      is accepted: both fixed replies are written, the destination is the
      one requested, and the later chunks stay unread. */
  lemma AutoAcceptSocks5(methods: seq<byte>, dst: Socks5Addr, more: seq<seq<byte>>)
    requires 0 < |methods| <= 0xff && NO_AUTHENTICATION_REQUIRED in methods && Encodable(dst)
    ensures var greeting := EncodeAuthRequest(AuthRequest(methods)).value;
      var request := EncodeRequest(Request(CMD_CONNECT, dst)).value;
      AutoAcceptOf(State([], [greeting, request] + more)) == Handshake(Ok(dst.addr), [AUTH_REP, REP], State([], more))
  {
    var greeting := EncodeAuthRequest(AuthRequest(methods)).value;
    var request := EncodeRequest(Request(CMD_CONNECT, dst)).value;
    var st := State([], [greeting, request] + more);
    var rest := [request] + more;
    assert [greeting, request] + more == [greeting] + rest;
    assert ([greeting] + rest)[1..] == rest;
    var p := PeekOf(st);
    assert p == (greeting, State(greeting, rest));
    assert greeting[0] == VER5;
    assert AtLeastFrom(3, greeting, State([], rest)) == (Ok(greeting), State([], rest));
    assert [] + greeting == greeting;
    assert AtLeastOf(3, p.1) == (Ok(greeting), State([], rest));
    assert greeting[2..] == methods;
    assert rest[1..] == more;
    assert AtLeastFrom(4, request, State([], more)) == (Ok(request), State([], more));
    assert [] + request == request;
    assert AtLeastOf(4, State([], rest)) == (Ok(request), State([], more));
    ParseAutoRequestOfEncoding(dst);
  }

  /** A greeting that does not fill its read exactly, such as one sent
      together with the request, is refused before anything is written. */
  lemma AutoSocks5RejectsSurplus(st: State)
    requires AtLeastOf(3, st).0.Ok?
    requires |AtLeastOf(3, st).0.value| != 2 + AtLeastOf(3, st).0.value[1] as nat
    ensures AutoSocks5Of(st) == Handshake(Err(StructError), [], AtLeastOf(3, st).1)
  {
  }

  /** CONNECT: the response is the version followed by the fixed text,
      nothing is pushed back, and the bytes after the blank line stay
      unread. */
  lemma AutoHttpConnect(st: State, headers: seq<byte>, ver: seq<byte>, addr: Address)
    requires UntilOf(CRLFCRLF, true, st).0 == Ok(headers)
    requires ParseHttpHeaders(headers) == Ok((CONNECT, ver, addr))
    ensures AutoHttpOf(st).result == Ok(addr)
    ensures AutoHttpOf(st).writes == [ver + RES_SUFFIX]
    ensures Unconsumed(st) == headers + CRLFCRLF + Unconsumed(AutoHttpOf(st).after)
  {
    UntilStripSplits(CRLFCRLF, headers, st);
  }

  /** The first blank line of a header block stays first whatever follows. */
  lemma BlankLineFirst(headers: seq<byte>, body: seq<byte>)
    requires FirstAt(headers + CRLFCRLF, CRLFCRLF, |headers|)
    ensures FirstAt(headers + CRLFCRLF + body, CRLFCRLF, |headers|)
  {
    var b := headers + CRLFCRLF;
    OccursInPrefix(b, body, CRLFCRLF, |headers|);
    forall j: nat | j < |headers| ensures !OccursAt(b + body, CRLFCRLF, j) {
      OccursInPrefix(b, body, CRLFCRLF, j);
    }
  }

  /** A request line starts with its method, and CONNECT does not start
      with the SOCKS5 version byte. */
  lemma RequestLineFirstByte(h: seq<byte>, meth: seq<byte>, target: seq<byte>, ver: seq<byte>)
    requires IsRequestLine(h, meth, target, ver)
    ensures |h| > 0 && h[0] == meth[0]
  {
    assert h[..|meth + [SP] + target + [SP] + ver + CRLF|][0] == h[0];
  }

  /** On a tame stream whose first byte is not 5, accept takes the HTTP
      branch, which sees every byte the client sent. */
  lemma AutoAcceptHttpBranch(st: State)
    requires Tame(st) && |Unconsumed(st)| > 0 && Unconsumed(st)[0] != VER5
    ensures AutoAcceptOf(st) == AutoHttpOf(PeekOf(st).1)
    ensures Unconsumed(PeekOf(st).1) == Unconsumed(st) && Tame(PeekOf(st).1)
  {
    PeekTame(st);
  }

  /** dispatch_http on a tame stream holding a CONNECT header block that
      ends at its first blank line within half the limit. */
  lemma AutoHttpConnectTame(st: State, headers: seq<byte>, target: seq<byte>, ver: seq<byte>, body: seq<byte>)
    requires Tame(st) && Unconsumed(st) == headers + CRLFCRLF + body
    requires FirstAt(headers + CRLFCRLF, CRLFCRLF, |headers|) && |headers| + 4 <= HALF_BUFSIZE
    requires IsRequestLine(headers, CONNECT, target, ver) && FindHost(headers).Some?
    requires HostPort(FindHost(headers).value.1).Ok?
    ensures var host := FindHost(headers).value;
      && AutoHttpOf(st).result == Ok(Address(StripBrackets(host.0), HostPort(host.1).value))
      && AutoHttpOf(st).writes == [ver + RES_SUFFIX]
      && Unconsumed(AutoHttpOf(st).after) == body
  {
    var u := Unconsumed(st);
    var k := |headers|;
    BlankLineFirst(headers, body);
    UntilTame(CRLFCRLF, true, st, k);
    assert u[..k] + [] == headers;
    assert u[k + 4..] == body;
    var host := FindHost(headers).value;
    var addr := Address(StripBrackets(host.0), HostPort(host.1).value);
    ParseHttpHeadersOf(headers, CONNECT, target, ver);
    assert ParseHttpHeaders(headers) == Ok((CONNECT, ver, addr));
    AutoHttpConnect(st, headers, ver, addr);
  }

  /** An HTTP CONNECT client on a tame stream, whose header block ends at
      its first blank line within half the limit, is accepted end to end:
      the Host line gives the destination, the response is the version and
      the fixed text, and the bytes after the blank line stay unread. */
  lemma AutoAcceptHttpConnect(st: State, headers: seq<byte>, target: seq<byte>, ver: seq<byte>, body: seq<byte>)
    requires Tame(st) && Unconsumed(st) == headers + CRLFCRLF + body
    requires FirstAt(headers + CRLFCRLF, CRLFCRLF, |headers|) && |headers| + 4 <= HALF_BUFSIZE
    requires IsRequestLine(headers, CONNECT, target, ver) && FindHost(headers).Some?
    requires HostPort(FindHost(headers).value.1).Ok?
    ensures var host := FindHost(headers).value;
      && AutoAcceptOf(st).result == Ok(Address(StripBrackets(host.0), HostPort(host.1).value))
      && AutoAcceptOf(st).writes == [ver + RES_SUFFIX]
      && Unconsumed(AutoAcceptOf(st).after) == body
  {
    RequestLineFirstByte(headers, CONNECT, target, ver);
    assert Unconsumed(st)[0] == headers[0];
    AutoAcceptHttpBranch(st);
    AutoHttpConnectTame(PeekOf(st).1, headers, target, ver, body);
  }

  /** Any other method: nothing is written, and the client's bytes are
      unread again with the header block replaced by its rewrite. */
  lemma AutoHttpForward(st: State, headers: seq<byte>, meth: seq<byte>, ver: seq<byte>, addr: Address)
    requires UntilOf(CRLFCRLF, true, st).0 == Ok(headers)
    requires ParseHttpHeaders(headers) == Ok((meth, ver, addr)) && meth != CONNECT
    ensures AutoHttpOf(st).result == Ok(addr) && AutoHttpOf(st).writes == []
    ensures exists body :: Unconsumed(st) == headers + CRLFCRLF + body
                           && Unconsumed(AutoHttpOf(st).after) == Rewritten(headers) + body
  {
    UntilStripSplits(CRLFCRLF, headers, st);
  }

  /** With no Proxy- line, the next layer reads exactly what the client
      sent, header block included. */
  lemma AutoHttpForwardVerbatim(st: State, headers: seq<byte>, meth: seq<byte>, ver: seq<byte>, addr: Address)
    requires UntilOf(CRLFCRLF, true, st).0 == Ok(headers)
    requires ParseHttpHeaders(headers) == Ok((meth, ver, addr)) && meth != CONNECT
    requires forall l :: l in SplitLines(headers) ==> !IsProxyHeader(l)
    ensures Unconsumed(AutoHttpOf(st).after) == Unconsumed(st)
  {
    AutoHttpForward(st, headers, meth, ver, addr);
    RewrittenNoProxy(headers);
  }

  /** A block with a request line and a Host match parses to the line's
      method and version and the Host's address, unless int() refuses the
      port. */
  lemma ParseHttpHeadersOf(h: seq<byte>, meth: seq<byte>, target: seq<byte>, ver: seq<byte>)
    requires IsRequestLine(h, meth, target, ver)
    requires FindHost(h).Some?
    ensures var port := HostPort(FindHost(h).value.1);
      ParseHttpHeaders(h)
      == if port.Ok? then Ok((meth, ver, Address(StripBrackets(FindHost(h).value.0), port.value))) else Err(DigitLimit)
  {
    ParseRequestLineComplete(h, meth, target, ver);
  }

  /** A block whose Host line directly follows a CR-free request line parses
      to the address that Host line gives. */
  lemma HostLineParses(h: seq<byte>, line: seq<byte>, meth: seq<byte>, target: seq<byte>, ver: seq<byte>)
    requires forall j :: 0 <= j < |line| ==> line[j] != CR
    requires StartsWith(h, line + HOST_PREFIX)
    requires HostAt(h, |line| + |HOST_PREFIX|).Some?
    requires IsRequestLine(h, meth, target, ver)
    ensures var host := HostAt(h, |line| + |HOST_PREFIX|).value;
      ParseHttpHeaders(h)
      == if HostPort(host.1).Ok? then Ok((meth, ver, Address(StripBrackets(host.0), HostPort(host.1).value))) else Err(DigitLimit)
  {
    HostAfterLine(h, line);
    ParseHttpHeadersOf(h, meth, target, ver);
  }

  /** A request line and a "Host: name:port" line give that address. */
  lemma ParseHttpHeadersNamePort(line: seq<byte>, meth: seq<byte>, target: seq<byte>, ver: seq<byte>,
                                 name: seq<byte>, port: nat, rest: seq<byte>)
    requires forall j :: 0 <= j < |line| ==> line[j] != CR
    requires IsRequestLine(line + HOST_PREFIX + name + [COLON] + Decimal(port) + rest, meth, target, ver)
    requires |name| > 0 && forall i :: 0 <= i < |name| ==> IsHostByte(name[i])
    requires |Decimal(port)| <= INT_MAX_STR_DIGITS
    requires rest == [] || rest[0] == CR
    ensures ParseHttpHeaders(line + HOST_PREFIX + name + [COLON] + Decimal(port) + rest)
            == Ok((meth, ver, Address(name, port)))
  {
    var pre := line + HOST_PREFIX;
    var h := pre + name + [COLON] + Decimal(port) + rest;
    HostNamePort(pre, name, Decimal(port), rest);
    assert h[..|pre|] == pre;
    HostLineParses(h, line, meth, target, ver);
    HostPortOfDecimal(port);
  }

  /** A Host port of more than INT_MAX_STR_DIGITS digits makes int() raise
      ValueError, whatever the rest of the block. */
  lemma ParseHttpHeadersLongPort(line: seq<byte>, meth: seq<byte>, target: seq<byte>, ver: seq<byte>,
                                 name: seq<byte>, ds: seq<byte>, rest: seq<byte>)
    requires forall j :: 0 <= j < |line| ==> line[j] != CR
    requires IsRequestLine(line + HOST_PREFIX + name + [COLON] + ds + rest, meth, target, ver)
    requires |name| > 0 && forall i :: 0 <= i < |name| ==> IsHostByte(name[i])
    requires |ds| > INT_MAX_STR_DIGITS && forall i :: 0 <= i < |ds| ==> IsDigit(ds[i])
    requires rest == [] || rest[0] == CR
    ensures ParseHttpHeaders(line + HOST_PREFIX + name + [COLON] + ds + rest) == Err(DigitLimit)
  {
    var pre := line + HOST_PREFIX;
    var h := pre + name + [COLON] + ds + rest;
    HostNamePort(pre, name, ds, rest);
    assert h[..|pre|] == pre;
    HostLineParses(h, line, meth, target, ver);
  }

  /** Without ":port" the port is 80. */
  lemma ParseHttpHeadersDefaultPort(line: seq<byte>, meth: seq<byte>, target: seq<byte>, ver: seq<byte>,
                                    name: seq<byte>, rest: seq<byte>)
    requires forall j :: 0 <= j < |line| ==> line[j] != CR
    requires IsRequestLine(line + HOST_PREFIX + name + rest, meth, target, ver)
    requires |name| > 0 && forall i :: 0 <= i < |name| ==> IsHostByte(name[i])
    requires rest == [] || rest[0] == CR
    ensures ParseHttpHeaders(line + HOST_PREFIX + name + rest) == Ok((meth, ver, Address(name, DEFAULT_HTTP_PORT)))
  {
    var pre := line + HOST_PREFIX;
    var h := pre + name + rest;
    HostNameOnly(pre, name, rest);
    assert h[..|pre|] == pre;
    HostLineParses(h, line, meth, target, ver);
  }

  /** A bracketed IPv6 literal loses its brackets. */
  lemma ParseHttpHeadersBracketed(line: seq<byte>, meth: seq<byte>, target: seq<byte>, ver: seq<byte>,
                                  lit: seq<byte>, rest: seq<byte>)
    requires forall j :: 0 <= j < |line| ==> line[j] != CR
    requires IsRequestLine(line + HOST_PREFIX + [LBRACKET] + lit + [RBRACKET] + rest, meth, target, ver)
    requires |lit| > 0 && forall i :: 0 <= i < |lit| ==> IsHexColon(lit[i])
    requires rest == [] || rest[0] == CR
    ensures ParseHttpHeaders(line + HOST_PREFIX + [LBRACKET] + lit + [RBRACKET] + rest)
            == Ok((meth, ver, Address(lit, DEFAULT_HTTP_PORT)))
  {
    var pre := line + HOST_PREFIX;
    var h := pre + [LBRACKET] + lit + [RBRACKET] + rest;
    HostBracketed(pre, lit, rest);
    assert h[..|pre|] == pre;
    HostLineParses(h, line, meth, target, ver);
    StripBracketsOf(lit);
  }

  lemma StripBracketsOf(lit: seq<byte>)
    ensures StripBrackets([LBRACKET] + lit + [RBRACKET]) == lit
  {
    var b := [LBRACKET] + lit + [RBRACKET];
    assert b[1..|b| - 1] == lit;
  }

  // ---------------------------------------------------------------------
  // The acceptor

  class HTTPOrSocks5Acceptor {
    var addr: Address

    constructor ()
    {
      addr := Address([], 0);
    }

    method ParseAutoRequestRead(stream: Stream) returns (r: Result<Address>)
      modifies stream`toRead, stream`source
      ensures var q := AtLeastOf(4, old(stream.St()));
        && stream.St() == q.1
        && r == (if q.0.Err? then Err(q.0.error) else ParseAutoRequest(q.0.value))
    {
      var buf := stream.ReadAtLeast(4);
      if buf.Err? {
        return Err(buf.error);
      }
      r := ParseAutoRequest(buf.value);
    }

    method DispatchSocks5(stream: Stream) returns (r: Result<()>)
      modifies this`addr, stream`toRead, stream`source, stream`written
      ensures var h := AutoSocks5Of(old(stream.St()));
        && r == (if h.result.Ok? then Ok(()) else Err(h.result.error))
        && stream.written == old(stream.written) + h.writes
        && stream.St() == h.after
        && addr == (if h.result.Ok? then h.result.value else old(addr))
    {
      var buf := stream.ReadAtLeast(3);
      if buf.Err? {
        return Err(buf.error);
      }
      var check := CheckGreeting(buf.value);
      if check.Fail? {
        return Err(check.error);
      }
      r := DispatchSocks5Request(stream);
    }

    /** The request half of dispatch_socks5, once the greeting passed. */
    method DispatchSocks5Request(stream: Stream) returns (r: Result<()>)
      modifies this`addr, stream`toRead, stream`source, stream`written
      ensures var h := AutoSocks5RequestOf(old(stream.St()));
        && r == (if h.result.Ok? then Ok(()) else Err(h.result.error))
        && stream.written == old(stream.written) + h.writes
        && stream.St() == h.after
        && addr == (if h.result.Ok? then h.result.value else old(addr))
    {
      stream.WriteDrain(AUTH_REP);
      var a := ParseAutoRequestRead(stream);
      if a.Err? {
        return Err(a.error);
      }
      stream.WriteDrain(REP);
      addr := a.value;
      r := Ok(());
    }

    method DispatchHttp(stream: Stream) returns (r: Result<()>)
      modifies this`addr, stream`toRead, stream`source, stream`written
      ensures var h := AutoHttpOf(old(stream.St()));
        && r == (if h.result.Ok? then Ok(()) else Err(h.result.error))
        && stream.written == old(stream.written) + h.writes
        && stream.St() == h.after
        && addr == (if h.result.Ok? then h.result.value else old(addr))
    {
      var buf := stream.ReadUntil(CRLFCRLF, true);
      if buf.Err? {
        return Err(buf.error);
      }
      var parsed := ParseHttpHeaders(buf.value);
      if parsed.Err? {
        return Err(parsed.error);
      }
      var (meth, ver, a) := parsed.value;
      if meth == CONNECT {
        stream.WriteDrain(ver + RES_SUFFIX);
      } else {
        stream.Push(Rewritten(buf.value));
      }
      addr := a;
      r := Ok(());
    }

    method Accept(stream: Stream, ghost layers: seq<Stream>) returns (r: Result<Stream>)
      requires stream.IsChain(layers)
      modifies this`addr, layers
      ensures var h := AutoAcceptOf(old(stream.St()));
        && r == (if h.result.Ok? then Ok(stream) else Err(h.result.error))
        && stream.written == old(stream.written) + h.writes
        && stream.St() == h.after
        && addr == (if h.result.Ok? then h.result.value else old(addr))
      ensures forall i :: 0 <= i < |layers| ==>
        layers[i].closeCalls == old(layers[i].closeCalls) + (if r.Err? then 1 else 0)
      ensures forall i :: 1 <= i < |layers| ==> layers[i].View() == old(layers[i].View())
    {
      var res := AcceptBody(stream);
      r := stream.CmExit(res, true, layers);
    }

    /** The body of accept inside stream.cm. */
    method AcceptBody(stream: Stream) returns (r: Result<Stream>)
      modifies this`addr, stream`toRead, stream`source, stream`written
      ensures var h := AutoAcceptOf(old(stream.St()));
        && r == (if h.result.Ok? then Ok(stream) else Err(h.result.error))
        && stream.written == old(stream.written) + h.writes
        && stream.St() == h.after
        && addr == (if h.result.Ok? then h.result.value else old(addr))
    {
      var buf := stream.Peek();
      if |buf| == 0 {
        return Err(IndexError);
      }
      var o;
      if buf[0] == VER5 {
        o := DispatchSocks5(stream);
      } else {
        o := DispatchHttp(stream);
      }
      r := if o.Ok? then Ok(stream) else Err(o.error);
    }
  }
}
