/** The stream contract of proxy/stream/base.py.

    The pending (pushed-back) buffer and the transport underneath are
    captured by a State: `pending` is the to_read field, `chunks` is what
    successive read_primitive calls will return, one chunk per call; once
    the chunks are used up read_primitive returns the empty buffer, which
    means end of stream (an empty chunk inside `chunks` is an end of stream
    reported early). Every read operation is first defined as a function on
    State; the methods of class Stream are proved to compute exactly that
    function, and the properties of the contract are lemmas about the
    functions. */
module Streams {
  import opened Bytes
  import opened Errors

  /** STREAM_BUFSIZE from p3/defaults.py: 2**22 bytes. */
  const STREAM_BUFSIZE: nat := 0x40_0000

  /** Half the limit: chunks no larger than this never trip the size guard
      of readexactly(n) for n up to this size. */
  const HALF_BUFSIZE: nat := STREAM_BUFSIZE / 2

  datatype State = State(pending: seq<byte>, chunks: seq<seq<byte>>)

  /** Every byte the stream will still deliver, in order. */
  function Unconsumed(st: State): seq<byte>
  {
    st.pending + Flatten(st.chunks)
  }

  /** A measure that every non-empty read decreases. */
  function Fuel(st: State): nat
  {
    |st.chunks| + (if st.pending == [] then 0 else 1)
  }

  /** No chunk of the transport signals end of stream early. */
  predicate NoEarlyEof(st: State)
  {
    forall i :: 0 <= i < |st.chunks| ==> |st.chunks[i]| > 0
  }

  /** A stream whose pending buffer and chunks are all at most half the
      limit, and whose transport only reports end of stream when drained. */
  predicate Tame(st: State)
  {
    && |st.pending| <= HALF_BUFSIZE
    && forall i :: 0 <= i < |st.chunks| ==> 0 < |st.chunks[i]| <= HALF_BUFSIZE
  }

  /** read_primitive of the transport: its next chunk, or empty at the end. */
  function Primitive(st: State): (res: (seq<byte>, State))
    ensures res.1.pending == st.pending
    ensures res.0 + Flatten(res.1.chunks) == Flatten(st.chunks)
    ensures |res.0| > 0 ==> |res.1.chunks| < |st.chunks|
  {
    if st.chunks == [] then ([], st) else (st.chunks[0], State(st.pending, st.chunks[1..]))
  }

  /** push(buf): buf goes in front of the pending bytes. */
  function Pushed(buf: seq<byte>, st: State): (r: State)
    ensures Unconsumed(r) == buf + Unconsumed(st)
  {
    State(buf + st.pending, st.chunks)
  }

  /** read(): the pending buffer if there is one, else one primitive read. */
  function ReadOf(st: State): (res: (seq<byte>, State))
    ensures res.0 + Unconsumed(res.1) == Unconsumed(st)
    ensures res.1.pending == []
    ensures st.pending != [] ==> res.0 == st.pending && res.1.chunks == st.chunks
    ensures st.pending == [] ==> (res.0, res.1) == Primitive(st)
    ensures |res.0| > 0 ==> Fuel(res.1) < Fuel(st)
  {
    if st.pending != [] then (st.pending, State([], st.chunks)) else Primitive(st)
  }

  /** peek(): fills an empty pending buffer from the transport, consumes nothing. */
  function PeekOf(st: State): (res: (seq<byte>, State))
    ensures Unconsumed(res.1) == Unconsumed(st)
    ensures res.0 == res.1.pending
    ensures st.pending != [] ==> res.1 == st
  {
    if st.pending == [] then
      var p := Primitive(st);
      (p.0, State(p.0, p.1.chunks))
    else (st.pending, st)
  }

  /** The loop of readatleast(n) with `buf` accumulated so far. */
  function AtLeastFrom(n: nat, buf: seq<byte>, st: State): (res: (Result<seq<byte>>, State))
    requires |buf| <= STREAM_BUFSIZE
    ensures res.0.Ok? ==> n <= |res.0.value| <= STREAM_BUFSIZE
    ensures res.0.Ok? ==> res.0.value + Unconsumed(res.1) == buf + Unconsumed(st)
    ensures res.0.Err? ==> res.0.error == IncompleteRead || res.0.error == LimitOverrun
    decreases Fuel(st)
  {
    if |buf| >= n then (Ok(buf), st)
    else
      var r := ReadOf(st);
      if r.0 == [] then (Err(IncompleteRead), r.1)
      else if |buf + r.0| > STREAM_BUFSIZE then (Err(LimitOverrun), r.1)
      else
        assert buf + r.0 + Unconsumed(r.1) == buf + Unconsumed(st);
        AtLeastFrom(n, buf + r.0, r.1)
  }

  /** readatleast(n). */
  function AtLeastOf(n: nat, st: State): (res: (Result<seq<byte>>, State))
    ensures res.0.Ok? ==> n <= |res.0.value| <= STREAM_BUFSIZE
    ensures res.0.Ok? ==> res.0.value + Unconsumed(res.1) == Unconsumed(st)
    ensures res.0.Err? ==> res.0.error == IncompleteRead || res.0.error == LimitOverrun
    ensures n == 0 ==> res == (Ok([]), st)
  {
    AtLeastFrom(n, [], st)
  }

  /** readexactly(n): readatleast(n), the surplus pushed back. */
  function ExactlyOf(n: nat, st: State): (res: (Result<seq<byte>>, State))
    ensures res.0.Ok? ==> |res.0.value| == n && Unconsumed(st) == res.0.value + Unconsumed(res.1)
    ensures res.0.Err? ==> res.0.error == IncompleteRead || res.0.error == LimitOverrun
  {
    var r := AtLeastOf(n, st);
    if r.0.Err? then r
    else
      var buf := r.0.value;
      if |buf| > n then (Ok(buf[..n]), Pushed(buf[n..], r.1)) else (Ok(buf), r.1)
  }

  /** sep occurs in s starting at index i. */
  predicate OccursAt(s: seq<byte>, sep: seq<byte>, i: nat)
  {
    i + |sep| <= |s| && s[i..i + |sep|] == sep
  }

  /** The first occurrence of sep in s is at index k. */
  predicate FirstAt(s: seq<byte>, sep: seq<byte>, k: nat)
  {
    OccursAt(s, sep, k) && forall j :: 0 <= j < k ==> !OccursAt(s, sep, j)
  }

  /** The leftmost occurrence of sep in s at or after index k, as
      bytes.split(sep, 1) finds it. */
  function IndexFrom(s: seq<byte>, sep: seq<byte>, k: nat): (r: Option<nat>)
    ensures r.Some? ==> k <= r.value && OccursAt(s, sep, r.value)
    ensures r.Some? ==> forall j: nat :: k <= j < r.value ==> !OccursAt(s, sep, j)
    ensures r.None? ==> forall j: nat :: k <= j ==> !OccursAt(s, sep, j)
    decreases |s| - k
  {
    if k + |sep| > |s| then None
    else if s[k..k + |sep|] == sep then Some(k)
    else IndexFrom(s, sep, k + 1)
  }

  /** An occurrence that ends inside s is an occurrence in any extension of s. */
  lemma OccursInPrefix(s: seq<byte>, t: seq<byte>, sep: seq<byte>, j: nat)
    requires j + |sep| <= |s|
    ensures OccursAt(s + t, sep, j) <==> OccursAt(s, sep, j)
  {
    assert (s + t)[j..j + |sep|] == s[j..j + |sep|];
  }

  /** The step of readuntil that finds sep at index i of the accumulated
      buffer b = buf + next: the split it makes is the split of the whole
      stream at its first sep. */
  lemma FoundSplits(buf: seq<byte>, next: seq<byte>, rest: seq<byte>, sep: seq<byte>, strip: bool, i: nat)
    requires forall j: nat :: !OccursAt(buf, sep, j)
    requires OccursAt(buf + next, sep, i)
    requires forall j: nat :: j < i ==> !OccursAt(buf + next, sep, j)
    ensures SplitAtFirst(buf + next + rest, sep, strip,
                         (buf + next)[..i] + (if strip then [] else sep), (buf + next)[i + |sep|..] + rest)
  {
    var b := buf + next;
    var u := b + rest;
    OccursInPrefix(b, rest, sep, i);
    forall j: nat | j < i ensures !OccursAt(u, sep, j) {
      OccursInPrefix(b, rest, sep, j);
    }
    assert u[..i] == b[..i];
    assert u[i + |sep|..] == b[i + |sep|..] + rest;
  }

  /** v and after are what readuntil(sep, strip) returns and leaves when the
      stream delivers u: the bytes before the first sep (sep kept unless
      strip), and everything after that sep. */
  predicate SplitAtFirst(u: seq<byte>, sep: seq<byte>, strip: bool, v: seq<byte>, after: seq<byte>)
  {
    var k := if strip then |v| else |v| - |sep|;
    && 0 <= k
    && FirstAt(u, sep, k)
    && v == u[..k] + (if strip then [] else sep)
    && after == u[k + |sep|..]
  }

  /** The loop of readuntil(sep, strip) with `buf` accumulated so far. */
  function UntilFrom(sep: seq<byte>, strip: bool, buf: seq<byte>, st: State): (res: (Result<seq<byte>>, State))
    ensures res.0.Err? ==> res.0.error == IncompleteRead || res.0.error == LimitOverrun || res.0.error == EmptySeparator
    decreases Fuel(st)
  {
    var r := ReadOf(st);
    if r.0 == [] then (Err(IncompleteRead), r.1)
    else
      var b := buf + r.0;
      if |b| > STREAM_BUFSIZE then (Err(LimitOverrun), r.1)
      else if sep == [] then (Err(EmptySeparator), r.1)
      else
        match IndexFrom(b, sep, 0)
        case None => UntilFrom(sep, strip, b, r.1)
        case Some(i) => (Ok(b[..i] + (if strip then [] else sep)), Pushed(b[i + |sep|..], r.1))
  }

  /** Started on a buffer in which sep does not occur, the loop either
      splits the whole input at the first sep, within the limit, or fails
      with one of readuntil's errors. */
  lemma {:induction false} UntilFromSplits(sep: seq<byte>, strip: bool, buf: seq<byte>, st: State)
    requires |buf| <= STREAM_BUFSIZE
    requires sep == [] ==> buf == []
    requires sep != [] ==> forall j: nat :: !OccursAt(buf, sep, j)
    ensures var res := UntilFrom(sep, strip, buf, st);
      && (res.0.Ok? ==> sep != [])
      && (res.0.Ok? ==> SplitAtFirst(buf + Unconsumed(st), sep, strip, res.0.value, Unconsumed(res.1)))
      && (res.0.Ok? ==> |res.0.value| - (if strip then 0 else |sep|) + |sep| <= STREAM_BUFSIZE)
      && (res.0.Err? ==> res.0.error in {IncompleteRead, LimitOverrun, EmptySeparator})
    decreases Fuel(st)
  {
    var r := ReadOf(st);
    if r.0 != [] && |buf + r.0| <= STREAM_BUFSIZE && sep != [] {
      var b := buf + r.0;
      var u := Unconsumed(r.1);
      assert b + u == buf + Unconsumed(st);
      var idx := IndexFrom(b, sep, 0);
      if idx.None? {
        assert UntilFrom(sep, strip, buf, st) == UntilFrom(sep, strip, b, r.1);
        UntilFromSplits(sep, strip, b, r.1);
      } else {
        var i := idx.value;
        var v := b[..i] + (if strip then [] else sep);
        var after := Pushed(b[i + |sep|..], r.1);
        assert UntilFrom(sep, strip, buf, st) == (Ok(v), after);
        FoundSplits(buf, r.0, u, sep, strip, i);
        assert Unconsumed(after) == b[i + |sep|..] + u;
      }
    }
  }

  /** One turn of the readuntil loop, after the read that returned next. */
  lemma UntilFromStep(sep: seq<byte>, strip: bool, buf: seq<byte>, st: State, next: seq<byte>, st1: State)
    requires (next, st1) == ReadOf(st)
    ensures next == [] ==> UntilFrom(sep, strip, buf, st) == (Err(IncompleteRead), st1)
    ensures next != [] && |buf + next| > STREAM_BUFSIZE ==> UntilFrom(sep, strip, buf, st) == (Err(LimitOverrun), st1)
    ensures next != [] && |buf + next| <= STREAM_BUFSIZE && sep == [] ==>
      UntilFrom(sep, strip, buf, st) == (Err(EmptySeparator), st1)
    ensures next != [] && |buf + next| <= STREAM_BUFSIZE && sep != [] && IndexFrom(buf + next, sep, 0).None? ==>
      UntilFrom(sep, strip, buf, st) == UntilFrom(sep, strip, buf + next, st1)
    ensures next != [] && |buf + next| <= STREAM_BUFSIZE && sep != [] && IndexFrom(buf + next, sep, 0).Some? ==>
      var i := IndexFrom(buf + next, sep, 0).value;
      UntilFrom(sep, strip, buf, st) == (Ok((buf + next)[..i] + (if strip then [] else sep)), Pushed((buf + next)[i + |sep|..], st1))
  {
  }

  /** readuntil(sep, strip). */
  function UntilOf(sep: seq<byte>, strip: bool, st: State): (res: (Result<seq<byte>>, State))
    ensures res.0.Ok? ==> sep != [] && SplitAtFirst(Unconsumed(st), sep, strip, res.0.value, Unconsumed(res.1))
    ensures res.0.Ok? ==> |res.0.value| - (if strip then 0 else |sep|) + |sep| <= STREAM_BUFSIZE
    ensures res.0.Err? ==> res.0.error in {IncompleteRead, LimitOverrun, EmptySeparator}
  {
    assert [] + Unconsumed(st) == Unconsumed(st);
    UntilFromSplits(sep, strip, [], st);
    UntilFrom(sep, strip, [], st)
  }

  /** readuntil(sep, strip=True) returning v consumed exactly v and sep. */
  lemma UntilStripSplits(sep: seq<byte>, v: seq<byte>, st: State)
    requires UntilOf(sep, true, st).0 == Ok(v)
    ensures Unconsumed(st) == v + sep + Unconsumed(UntilOf(sep, true, st).1)
  {
    var r := UntilOf(sep, true, st);
    SplitStripped(Unconsumed(st), sep, v, Unconsumed(r.1));
  }

  lemma SplitStripped(u: seq<byte>, sep: seq<byte>, v: seq<byte>, after: seq<byte>)
    requires SplitAtFirst(u, sep, true, v, after)
    ensures u == v + sep + after
  {
    var k := |v|;
    assert v == u[..k] + [];
    assert u[k..k + |sep|] == sep;
    assert u == u[..k] + u[k..k + |sep|] + u[k + |sep|..];
  }

  /** The reads write_stream forwards: every read up to the first empty one. */
  function DrainOf(st: State): (res: (seq<seq<byte>>, State))
    ensures res.1.pending == []
    decreases Fuel(st)
  {
    var r := ReadOf(st);
    if r.0 == [] then ([], r.1)
    else
      var d := DrainOf(r.1);
      ([r.0] + d.0, d.1)
  }

  /** The forwarded reads followed by what is left are all the reader had. */
  lemma {:induction false} DrainOfSplits(st: State)
    ensures Flatten(DrainOf(st).0) + Unconsumed(DrainOf(st).1) == Unconsumed(st)
    decreases Fuel(st)
  {
    var r := ReadOf(st);
    if r.0 != [] {
      var d := DrainOf(r.1);
      DrainOfSplits(r.1);
      assert DrainOf(st) == ([r.0] + d.0, d.1);
      assert [r.0][1..] == [];
      FlattenAppend([r.0], d.0);
      assert Flatten([r.0] + d.0) + Unconsumed(d.1) == r.0 + (Flatten(d.0) + Unconsumed(d.1));
    }
  }

  /** Every forwarded read is non-empty: the empty read ends the loop. */
  lemma {:induction false} DrainOfNonEmpty(st: State)
    ensures forall i :: 0 <= i < |DrainOf(st).0| ==> |DrainOf(st).0[i]| > 0
    decreases Fuel(st)
  {
    var r := ReadOf(st);
    if r.0 != [] {
      var d := DrainOf(r.1);
      DrainOfNonEmpty(r.1);
      assert DrainOf(st) == ([r.0] + d.0, d.1);
      forall i | 1 <= i < |d.0| + 1 ensures |([r.0] + d.0)[i]| > 0 {
        assert ([r.0] + d.0)[i] == d.0[i - 1];
      }
    }
  }

  /** What a handshake on one stream amounts to: its result, the buffers it
      wrote in order, and the read side it leaves behind. */
  datatype Handshake<+T> = Handshake(result: Result<T>, writes: seq<seq<byte>>, after: State)

  /** The write_primitive calls that write(buf) makes: none for empty buf. */
  function WriteLog(buf: seq<byte>): (w: seq<seq<byte>>)
    ensures Flatten(w) == buf
    ensures forall i :: 0 <= i < |w| ==> |w[i]| > 0
  {
    if |buf| != 0 then [buf] else []
  }

  // ---------------------------------------------------------------------
  // Properties of the contract

  /** push(X) then read() returns exactly X first, with the old pending bytes kept behind it. */
  lemma PushThenRead(x: seq<byte>, st: State)
    requires x != []
    ensures ReadOf(Pushed(x, st)).0 == x + st.pending
    ensures Unconsumed(ReadOf(Pushed(x, st)).1) == Flatten(st.chunks)
  {
  }

  /** Peeking twice in a row returns the same bytes and leaves the same state. */
  lemma PeekIdempotent(st: State)
    ensures PeekOf(PeekOf(st).1) == PeekOf(st) || PeekOf(st).0 == []
  {
  }

  /** With fewer bytes left than requested (and a request within the limit),
      readatleast ends with IncompleteRead. */
  lemma {:induction false} AtLeastFromIncomplete(n: nat, buf: seq<byte>, st: State)
    requires |buf| + |Unconsumed(st)| < n <= STREAM_BUFSIZE
    ensures AtLeastFrom(n, buf, st).0 == Err(IncompleteRead)
    decreases Fuel(st)
  {
    var r := ReadOf(st);
    if r.0 != [] {
      AtLeastFromIncomplete(n, buf + r.0, r.1);
    }
  }

  lemma AtLeastIncomplete(n: nat, st: State)
    requires |Unconsumed(st)| < n <= STREAM_BUFSIZE
    ensures AtLeastOf(n, st).0 == Err(IncompleteRead)
  {
    AtLeastFromIncomplete(n, [], st);
  }

  /** A single read larger than the limit is refused even when it already
      holds the n bytes asked for. */
  lemma AtLeastOverrun(n: nat, st: State)
    requires 0 < n <= |st.pending|
    requires |st.pending| > STREAM_BUFSIZE
    ensures AtLeastOf(n, st).0 == Err(LimitOverrun)
  {
  }

  /** On a tame stream holding enough bytes, the readatleast loop succeeds,
      overshoots by less than half the limit and leaves a tame stream. */
  lemma {:induction false} AtLeastFromTame(n: nat, buf: seq<byte>, st: State)
    requires Tame(st) && n <= HALF_BUFSIZE && |buf| < n + HALF_BUFSIZE
    requires n <= |buf| + |Unconsumed(st)|
    ensures AtLeastFrom(n, buf, st).0.Ok?
    ensures |AtLeastFrom(n, buf, st).0.value| < n + HALF_BUFSIZE
    ensures Tame(AtLeastFrom(n, buf, st).1)
    ensures |buf| < n ==> AtLeastFrom(n, buf, st).1.pending == []
    decreases Fuel(st)
  {
    if |buf| < n {
      var r := ReadOf(st);
      if st.pending == [] {
        assert st.chunks != [];
        assert |st.chunks[0]| > 0;
      }
      assert 0 < |r.0| <= HALF_BUFSIZE;
      assert Tame(r.1) by {
        if st.pending == [] {
          forall i | 0 <= i < |r.1.chunks| ensures 0 < |r.1.chunks[i]| <= HALF_BUFSIZE {
            assert r.1.chunks[i] == st.chunks[i + 1];
          }
        }
      }
      AtLeastFromTame(n, buf + r.0, r.1);
    }
  }

  /** readexactly(n) on a tame stream holding at least n bytes: it returns
      the next n bytes and leaves a tame stream holding the rest. */
  lemma ExactlyTame(n: nat, st: State)
    requires Tame(st) && n <= HALF_BUFSIZE && n <= |Unconsumed(st)|
    ensures ExactlyOf(n, st).0 == Ok(Unconsumed(st)[..n])
    ensures Unconsumed(ExactlyOf(n, st).1) == Unconsumed(st)[n..]
    ensures Tame(ExactlyOf(n, st).1)
  {
    AtLeastFromTame(n, [], st);
  }

  /** peek on a tame stream that is not at its end shows the next byte. */
  lemma PeekTame(st: State)
    requires Tame(st) && |Unconsumed(st)| > 0
    ensures |PeekOf(st).0| > 0 && PeekOf(st).0[0] == Unconsumed(st)[0]
    ensures Tame(PeekOf(st).1)
  {
    if st.pending == [] {
      assert st.chunks != [];
      assert |st.chunks[0]| > 0;
      assert Unconsumed(st)[0] == st.chunks[0][0];
      var p := PeekOf(st).1;
      forall i | 0 <= i < |p.chunks| ensures 0 < |p.chunks[i]| <= HALF_BUFSIZE {
        assert p.chunks[i] == st.chunks[i + 1];
      }
    }
  }

  /** read on a tame stream that is not at its end returns a non-empty
      buffer of at most half the limit and leaves a tame stream. */
  lemma ReadTame(st: State)
    requires Tame(st) && |Unconsumed(st)| > 0
    ensures 0 < |ReadOf(st).0| <= HALF_BUFSIZE && Tame(ReadOf(st).1)
  {
    var r := ReadOf(st);
    if st.pending == [] {
      assert st.chunks != [];
      forall i | 0 <= i < |r.1.chunks| ensures 0 < |r.1.chunks[i]| <= HALF_BUFSIZE {
        assert r.1.chunks[i] == st.chunks[i + 1];
      }
    }
  }

  /** On a tame stream in which sep occurs at k, ending within half the
      limit, the readuntil loop started on a buffer without sep succeeds. */
  lemma {:induction false} UntilFromTame(sep: seq<byte>, strip: bool, buf: seq<byte>, st: State, k: nat)
    requires Tame(st) && sep != []
    requires forall j: nat :: !OccursAt(buf, sep, j)
    requires OccursAt(buf + Unconsumed(st), sep, k) && k + |sep| <= HALF_BUFSIZE
    ensures UntilFrom(sep, strip, buf, st).0.Ok?
    decreases Fuel(st)
  {
    if |buf| >= k + |sep| {
      OccursInPrefix(buf, Unconsumed(st), sep, k);
    }
    assert |buf| < k + |sep|;
    ReadTame(st);
    var r := ReadOf(st);
    var b := buf + r.0;
    assert b + Unconsumed(r.1) == buf + Unconsumed(st);
    UntilFromStep(sep, strip, buf, st, r.0, r.1);
    if IndexFrom(b, sep, 0).None? {
      UntilFromTame(sep, strip, b, r.1, k);
    }
  }

  /** readuntil on a tame stream whose first sep ends within half the
      limit: it returns the bytes before that sep (and sep unless strip)
      and leaves exactly the bytes after it. */
  lemma UntilTame(sep: seq<byte>, strip: bool, st: State, k: nat)
    requires Tame(st) && sep != []
    requires FirstAt(Unconsumed(st), sep, k) && k + |sep| <= HALF_BUFSIZE
    ensures UntilOf(sep, strip, st).0 == Ok(Unconsumed(st)[..k] + (if strip then [] else sep))
    ensures Unconsumed(UntilOf(sep, strip, st).1) == Unconsumed(st)[k + |sep|..]
  {
    assert [] + Unconsumed(st) == Unconsumed(st);
    UntilFromTame(sep, strip, [], st, k);
    var r := UntilOf(sep, strip, st);
    var k' := if strip then |r.0.value| else |r.0.value| - |sep|;
    assert FirstAt(Unconsumed(st), sep, k');
    assert !(k' < k) && !(k < k');
  }

  /** When the stream ends, within the limit, without a sep, readuntil
      started on a buffer fails with IncompleteRead. */
  lemma {:induction false} UntilFromIncomplete(sep: seq<byte>, strip: bool, buf: seq<byte>, st: State)
    requires sep != [] && |buf| + |Unconsumed(st)| <= STREAM_BUFSIZE
    requires forall j: nat :: !OccursAt(buf + Unconsumed(st), sep, j)
    ensures UntilFrom(sep, strip, buf, st).0 == Err(IncompleteRead)
    decreases Fuel(st)
  {
    var r := ReadOf(st);
    UntilFromStep(sep, strip, buf, st, r.0, r.1);
    if r.0 != [] {
      var b := buf + r.0;
      assert b + Unconsumed(r.1) == buf + Unconsumed(st);
      forall j: nat ensures !OccursAt(b, sep, j) {
        if j + |sep| <= |b| {
          OccursInPrefix(b, Unconsumed(r.1), sep, j);
        }
      }
      UntilFromIncomplete(sep, strip, b, r.1);
    }
  }

  /** readuntil on a stream that ends, within the limit, without any sep
      raises IncompleteRead, early end of stream or not. */
  lemma UntilIncomplete(sep: seq<byte>, strip: bool, st: State)
    requires sep != [] && |Unconsumed(st)| <= STREAM_BUFSIZE
    requires forall j: nat :: !OccursAt(Unconsumed(st), sep, j)
    ensures UntilOf(sep, strip, st).0 == Err(IncompleteRead)
  {
    assert [] + Unconsumed(st) == Unconsumed(st);
    UntilFromIncomplete(sep, strip, [], st);
  }

  /** When no separator ends within the first STREAM_BUFSIZE bytes of a
      stream longer than that, readuntil ends with LimitOverrun. */
  lemma {:induction false} UntilFromOverrun(sep: seq<byte>, strip: bool, buf: seq<byte>, st: State)
    requires NoEarlyEof(st) && sep != []
    requires |buf| <= STREAM_BUFSIZE && forall j: nat :: !OccursAt(buf, sep, j)
    requires |buf| + |Unconsumed(st)| > STREAM_BUFSIZE
    requires forall j: nat :: j + |sep| <= STREAM_BUFSIZE ==> !OccursAt(buf + Unconsumed(st), sep, j)
    ensures UntilFrom(sep, strip, buf, st).0 == Err(LimitOverrun)
    decreases Fuel(st)
  {
    var r := ReadOf(st);
    if st.pending == [] {
      assert st.chunks != [];
      assert |st.chunks[0]| > 0;
    }
    var b := buf + r.0;
    if |b| <= STREAM_BUFSIZE {
      var u := buf + Unconsumed(st);
      assert u == b + Unconsumed(r.1);
      forall j: nat ensures !OccursAt(b, sep, j) {
        if j + |sep| <= |b| {
          OccursInPrefix(b, Unconsumed(r.1), sep, j);
        }
      }
      assert IndexFrom(b, sep, 0).None?;
      UntilFromOverrun(sep, strip, b, r.1);
    }
  }

  lemma UntilOverrun(sep: seq<byte>, strip: bool, st: State)
    requires NoEarlyEof(st) && sep != []
    requires |Unconsumed(st)| > STREAM_BUFSIZE
    requires forall j: nat :: j + |sep| <= STREAM_BUFSIZE ==> !OccursAt(Unconsumed(st), sep, j)
    ensures UntilOf(sep, strip, st).0 == Err(LimitOverrun)
  {
    assert [] + Unconsumed(st) == Unconsumed(st);
    UntilFromOverrun(sep, strip, [], st);
  }

  /** A transport without an early end of stream is forwarded completely by
      write_stream, chunk boundaries aside. */
  lemma {:induction false} DrainAll(st: State)
    requires NoEarlyEof(st)
    ensures Flatten(DrainOf(st).0) == Unconsumed(st)
    ensures Unconsumed(DrainOf(st).1) == []
    decreases Fuel(st)
  {
    var r := ReadOf(st);
    assert st.pending == [] && st.chunks != [] ==> |st.chunks[0]| > 0;
    if r.0 != [] {
      DrainAll(r.1);
    }
  }

  // ---------------------------------------------------------------------
  // The Stream class

  /** One layer of a stream chain. `toRead` is the pending buffer; `source`
      stands for the transport that read_primitive draws from and `written`
      records, in order, every buffer handed to write_primitive. `next` is
      the inner layer that ensure_closed cascades into; `closeCalls` counts
      the close()/wait_closed() attempts on this layer, and `closeFails`
      says whether they raise (the error is swallowed either way). */
  class Stream {
    var toRead: seq<byte>
    var source: seq<seq<byte>>
    var written: seq<seq<byte>>
    var next: Stream?
    var closeCalls: nat
    const closeFails: bool

    constructor (source: seq<seq<byte>>, next: Stream?, closeFails: bool)
      ensures toRead == [] && this.source == source && written == []
      ensures this.next == next && closeCalls == 0 && this.closeFails == closeFails
    {
      toRead := [];
      this.source := source;
      written := [];
      this.next := next;
      closeCalls := 0;
      this.closeFails := closeFails;
    }

    /** The read side of this layer. */
    ghost function St(): State
      reads this`toRead, this`source
    {
      State(toRead, source)
    }

    /** Everything about this layer that closing must leave alone. */
    ghost function View(): (State, seq<seq<byte>>, Stream?)
      reads this
    {
      (St(), written, next)
    }

    /** `layers` lists this layer and every inner one, outermost first,
        each one once, ending with a layer that has no inner layer. */
    ghost predicate IsChain(layers: seq<Stream>)
      reads layers
    {
      && |layers| > 0
      && layers[0] == this
      && layers[|layers| - 1].next == null
      && (forall i :: 0 <= i < |layers| - 1 ==> layers[i].next == layers[i + 1])
      && (forall i, j :: 0 <= i < j < |layers| ==> layers[i] != layers[j])
    }

    method Push(buf: seq<byte>)
      modifies this`toRead
      ensures St() == Pushed(buf, old(St()))
    {
      toRead := buf + toRead;
    }

    method Pop() returns (buf: seq<byte>)
      modifies this`toRead
      ensures buf == old(toRead) && toRead == []
      ensures Unconsumed(old(St())) == buf + Unconsumed(St())
    {
      buf, toRead := toRead, [];
    }

    /** The transport's read: its next chunk, or empty at end of stream. */
    method ReadPrimitive() returns (buf: seq<byte>)
      modifies this`source
      ensures (buf, St()) == Primitive(old(St()))
    {
      if source == [] {
        buf := [];
      } else {
        buf, source := source[0], source[1..];
      }
    }

    method Read() returns (buf: seq<byte>)
      modifies this`toRead, this`source
      ensures (buf, St()) == ReadOf(old(St()))
    {
      buf := Pop();
      if |buf| != 0 {
        return;
      }
      buf := ReadPrimitive();
    }

    method Peek() returns (buf: seq<byte>)
      modifies this`toRead, this`source
      ensures (buf, St()) == PeekOf(old(St()))
    {
      if |toRead| == 0 {
        toRead := ReadPrimitive();
      }
      buf := toRead;
    }

    method ReadAtLeast(n: nat) returns (r: Result<seq<byte>>)
      modifies this`toRead, this`source
      ensures (r, St()) == AtLeastOf(n, old(St()))
    {
      var buf: seq<byte> := [];
      while |buf| < n
        invariant |buf| <= STREAM_BUFSIZE
        invariant AtLeastFrom(n, buf, St()) == AtLeastOf(n, old(St()))
        decreases Fuel(St())
      {
        var nextBuf := Read();
        if |nextBuf| == 0 {
          return Err(IncompleteRead);
        }
        buf := buf + nextBuf;
        if |buf| > STREAM_BUFSIZE {
          return Err(LimitOverrun);
        }
      }
      return Ok(buf);
    }

    method ReadExactly(n: nat) returns (r: Result<seq<byte>>)
      modifies this`toRead, this`source
      ensures (r, St()) == ExactlyOf(n, old(St()))
    {
      r := ReadAtLeast(n);
      if r.Ok? && |r.value| > n {
        Push(r.value[n..]);
        r := Ok(r.value[..n]);
      }
    }

    /** The end of readuntil: the bytes after the separator at index i
        are pushed back, and the bytes before it (with it unless strip)
        returned. */
    method SplitPush(buf: seq<byte>, sep: seq<byte>, strip: bool, i: nat) returns (v: seq<byte>)
      requires i + |sep| <= |buf|
      modifies this`toRead
      ensures v == buf[..i] + (if strip then [] else sep)
      ensures St() == Pushed(buf[i + |sep|..], old(St()))
    {
      Push(buf[i + |sep|..]);
      v := buf[..i];
      if !strip {
        v := v + sep;
      }
    }

    /** One turn of the readuntil loop on the buffer accumulated so far:
        either the loop ends with the result it returns, or it goes on with
        the grown buffer, having consumed a non-empty read. */
    method UntilTurn(sep: seq<byte>, strip: bool, buf: seq<byte>) returns (done: bool, r: Result<seq<byte>>, next: seq<byte>)
      modifies this`toRead, this`source
      ensures done ==> (r, St()) == UntilFrom(sep, strip, buf, old(St()))
      ensures !done ==> UntilFrom(sep, strip, next, St()) == UntilFrom(sep, strip, buf, old(St()))
      ensures !done ==> Fuel(St()) < Fuel(old(St()))
    {
      ghost var st0 := St();
      var more := Read();
      UntilFromStep(sep, strip, buf, st0, more, St());
      next := buf + more;
      done, r := true, Ok([]);
      if |more| == 0 {
        r := Err(IncompleteRead);
      } else if |next| > STREAM_BUFSIZE {
        r := Err(LimitOverrun);
      } else if |sep| == 0 {
        r := Err(EmptySeparator);
      } else {
        var idx := IndexFrom(next, sep, 0);
        if idx.Some? {
          var v := SplitPush(next, sep, strip, idx.value);
          r := Ok(v);
        } else {
          done := false;
        }
      }
    }

    method ReadUntil(sep: seq<byte>, strip: bool) returns (r: Result<seq<byte>>)
      modifies this`toRead, this`source
      ensures (r, St()) == UntilOf(sep, strip, old(St()))
    {
      var buf: seq<byte> := [];
      while true
        invariant UntilFrom(sep, strip, buf, St()) == UntilOf(sep, strip, old(St()))
        decreases Fuel(St())
      {
        var done, res, next := UntilTurn(sep, strip, buf);
        if done {
          return res;
        }
        buf := next;
      }
    }

    /** The transport's write: one more buffer on the wire. */
    method WritePrimitive(buf: seq<byte>)
      modifies this`written
      ensures written == old(written) + [buf]
    {
      written := written + [buf];
    }

    method Write(buf: seq<byte>)
      modifies this`written
      ensures written == old(written) + WriteLog(buf)
    {
      if |buf| != 0 {
        WritePrimitive(buf);
      }
    }

    /** writedrain: write, then wait for the chain to flush (no effect on
        what is written). */
    method WriteDrain(buf: seq<byte>)
      modifies this`written
      ensures written == old(written) + WriteLog(buf)
    {
      Write(buf);
    }

    /** Forward everything `reader` delivers until it reports end of stream. */
    method WriteStream(reader: Stream)
      modifies this`written, reader`toRead, reader`source
      ensures written == old(written) + DrainOf(old(reader.St())).0
      ensures reader.St() == DrainOf(old(reader.St())).1
    {
      while true
        invariant written + DrainOf(reader.St()).0 == old(written) + DrainOf(old(reader.St())).0
        invariant DrainOf(reader.St()).1 == DrainOf(old(reader.St())).1
        decreases Fuel(reader.St())
      {
        var done := DrainTurn(reader);
        if done {
          assert written + [] == written;
          break;
        }
      }
    }

    /** One turn of write_stream's loop: a read of `reader`, and, unless it
        was empty, the write of what it returned. */
    method DrainTurn(reader: Stream) returns (done: bool)
      modifies this`written, reader`toRead, reader`source
      ensures done ==> written == old(written) && DrainOf(old(reader.St())) == ([], reader.St())
      ensures !done ==> written + DrainOf(reader.St()).0 == old(written) + DrainOf(old(reader.St())).0
      ensures !done ==> DrainOf(reader.St()).1 == DrainOf(old(reader.St())).1
      ensures !done ==> Fuel(reader.St()) < Fuel(old(reader.St()))
    {
      ghost var st0, w0 := reader.St(), written;
      var buf := reader.Read();
      done := |buf| == 0;
      if !done {
        ghost var d := DrainOf(reader.St());
        assert DrainOf(st0) == ([buf] + d.0, d.1);
        WriteDrain(buf);
        assert written + d.0 == w0 + ([buf] + d.0);
      }
    }

    /** close() followed by wait_closed() on this layer alone; ok is false
        when they raise. */
    method CloseLayer() returns (ok: bool)
      modifies this`closeCalls
      ensures closeCalls == old(closeCalls) + 1
      ensures ok == !closeFails
    {
      closeCalls := closeCalls + 1;
      ok := !closeFails;
    }

    /** Close this layer, ignoring any failure, then every inner layer. */
    method EnsureClosed(ghost layers: seq<Stream>)
      requires IsChain(layers)
      modifies layers
      ensures forall i :: 0 <= i < |layers| ==> layers[i].closeCalls == old(layers[i].closeCalls) + 1
      ensures forall i :: 0 <= i < |layers| ==> layers[i].View() == old(layers[i].View())
      decreases |layers|
    {
      assert |layers| > 1 ==> layers[0].next == layers[1];
      var _ := CloseLayer();
      if next != null {
        ghost var inner := layers[1..];
        assert this !in inner by {
          forall j | 0 <= j < |inner| ensures inner[j] != this {
            assert layers[j + 1] != layers[0];
          }
        }
        next.EnsureClosed(inner);
        forall i | 1 <= i < |layers|
          ensures layers[i].closeCalls == old(layers[i].closeCalls) + 1
          ensures layers[i].View() == old(layers[i].View())
        {
          assert layers[i] == inner[i - 1];
        }
      }
    }

    /** Leaving `async with stream.cm(exc_only)` with the body's outcome:
        the chain is closed when the body failed, or on every exit when
        excOnly is false, and the outcome passes through unchanged. */
    method CmExit<T>(outcome: Result<T>, excOnly: bool, ghost layers: seq<Stream>) returns (r: Result<T>)
      requires IsChain(layers)
      modifies layers
      ensures r == outcome
      ensures forall i :: 0 <= i < |layers| ==>
        layers[i].closeCalls == old(layers[i].closeCalls) + (if !excOnly || outcome.Err? then 1 else 0)
      ensures forall i :: 0 <= i < |layers| ==> layers[i].View() == old(layers[i].View())
      ensures St() == old(St()) && written == old(written)
    {
      if !excOnly || outcome.Err? {
        EnsureClosed(layers);
        assert layers[0].View() == old(layers[0].View());
      }
      r := outcome;
    }
  }
}
