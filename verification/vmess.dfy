/** A stand-in for AES-GCM with an empty associated data, as the VMess
    layer calls it: sealing appends a 16-byte tag, and a ciphertext opens
    only if it is the sealing of what it opens to. The VMess layer relies on
    exactly these facts (the contract of Seal, OpenSeal and the contract of Open); the
    definitions below are a toy that has them and hides nothing. */
module Aead {
  import opened Bytes
  import opened Errors

  const TAG_SIZE: nat := 16

  function Sum(s: seq<byte>): nat
  {
    if s == [] then 0 else s[0] as nat + Sum(s[1..])
  }

  /** The authentication tag of a plaintext under a key and nonce. */
  function Tag(key: seq<byte>, nonce: seq<byte>, pt: seq<byte>): (t: seq<byte>)
    ensures |t| == TAG_SIZE
  {
    var c := (Sum(key) + 3 * Sum(nonce) + 7 * Sum(pt) + |pt|) % 0x100;
    seq(TAG_SIZE, i => c as byte)
  }

  /** AESGCM(key).encrypt(nonce, pt, b''). */
  function Seal(key: seq<byte>, nonce: seq<byte>, pt: seq<byte>): (ct: seq<byte>)
    ensures |ct| == |pt| + TAG_SIZE
  {
    pt + Tag(key, nonce, pt)
  }

  /** AESGCM(key).decrypt(nonce, ct, b''): None where it raises InvalidTag. */
  function Open(key: seq<byte>, nonce: seq<byte>, ct: seq<byte>): (r: Option<seq<byte>>)
    ensures r.Some? ==> Seal(key, nonce, r.value) == ct
  {
    if |ct| < TAG_SIZE then None
    else
      var pt := ct[..|ct| - TAG_SIZE];
      if ct[|ct| - TAG_SIZE..] == Tag(key, nonce, pt) then
        assert ct == pt + ct[|ct| - TAG_SIZE..];
        Some(pt)
      else None
  }

  lemma OpenSeal(key: seq<byte>, nonce: seq<byte>, pt: seq<byte>)
    ensures Open(key, nonce, Seal(key, nonce, pt)) == Some(pt)
  {
    var ct := Seal(key, nonce, pt);
    assert ct[..|ct| - TAG_SIZE] == pt;
  }
}

/** The VMess AEAD framing of proxy/contrib/v2rayn/stream/vmess.py. Each
    direction has its own cipher state: a key, an iv and a 16-bit message
    counter. Message i is sealed under the nonce "counter, big-endian, then
    iv" and framed as a 2-byte big-endian ciphertext length followed by the
    ciphertext. */
module Vmess {
  import opened Bytes
  import opened Errors
  import opened Streams
  import opened Aead

  /** struct.pack('!H', count) + iv; a count outside 16 bits is a struct
      error. */
  function Nonce(count: int, iv: seq<byte>): (r: Result<seq<byte>>)
    ensures r.Ok? <==> 0 <= count < 0x1_0000
  {
    if 0 <= count < 0x1_0000 then Ok(Pack16(count as uint16) + iv) else Err(StructError)
  }

  /** (count + 1) & 0xffff; Python's & on a negative int acts on its two's
      complement, which is the Euclidean remainder. */
  function NextCount(count: int): (c: int)
    ensures 0 <= c < 0x1_0000
    ensures 0 <= count < 0xffff ==> c == count + 1
    ensures count == 0xffff ==> c == 0
  {
    (count + 1) % 0x1_0000
  }

  /** Two messages under different counters never share a nonce. */
  lemma NonceInjective(iv: seq<byte>, c1: int, c2: int)
    requires 0 <= c1 < 0x1_0000 && 0 <= c2 < 0x1_0000 && c1 != c2
    ensures Nonce(c1, iv).value != Nonce(c2, iv).value
  {
    var n1, n2 := Nonce(c1, iv).value, Nonce(c2, iv).value;
    Pack16Injective(c1 as uint16, c2 as uint16);
    assert n1[..2] == Pack16(c1 as uint16) && n2[..2] == Pack16(c2 as uint16);
  }

  /** The counter after k more messages. */
  function Advance(count: int, k: nat): int
  {
    if k == 0 then count else NextCount(Advance(count, k - 1))
  }

  lemma {:induction false} AdvanceIsModular(count: int, k: nat)
    requires 0 <= count < 0x1_0000
    ensures Advance(count, k) == (count + k) % 0x1_0000
  {
    if k > 0 {
      AdvanceIsModular(count, k - 1);
    }
  }

  /** Within any 65536 consecutive messages of one direction no nonce
      repeats. */
  lemma NoncesDistinctWithinCycle(iv: seq<byte>, count: int, i: nat, j: nat)
    requires 0 <= count < 0x1_0000 && i < j < 0x1_0000
    ensures 0 <= Advance(count, i) < 0x1_0000 && 0 <= Advance(count, j) < 0x1_0000
    ensures Nonce(Advance(count, i), iv).value != Nonce(Advance(count, j), iv).value
  {
    AdvanceIsModular(count, i);
    AdvanceIsModular(count, j);
    WrapDistinct(count + i, count + j);
    NonceInjective(iv, Advance(count, i), Advance(count, j));
  }

  /** Two counter values less than a cycle apart wrap to different
      counters. */
  lemma WrapDistinct(x: nat, y: nat)
    requires x < y < x + 0x1_0000 && y < 2 * 0x1_0000
    ensures x % 0x1_0000 != y % 0x1_0000
  {
    assert x % 0x1_0000 == if x < 0x1_0000 then x else x - 0x1_0000;
    assert y % 0x1_0000 == if y < 0x1_0000 then y else y - 0x1_0000;
  }

  /** VmessCounteredAESGCM.encrypt: the ciphertext and the new counter. */
  function EncryptOf(key: seq<byte>, iv: seq<byte>, count: int, buf: seq<byte>): (res: (Result<seq<byte>>, int))
    ensures res.0.Ok? <==> 0 <= count < 0x1_0000
    ensures res.0.Ok? ==> |res.0.value| == |buf| + TAG_SIZE && res.1 == NextCount(count)
    ensures res.0.Err? ==> res == (Err(StructError), count)
  {
    var n := Nonce(count, iv);
    if n.Err? then (Err(n.error), count) else (Ok(Seal(key, n.value, buf)), NextCount(count))
  }

  /** VmessCounteredAESGCM.decrypt: the counter moves only when the
      ciphertext opens, and what opens is what encrypt would have sealed at
      this counter. */
  function DecryptOf(key: seq<byte>, iv: seq<byte>, count: int, buf: seq<byte>): (res: (Result<seq<byte>>, int))
    ensures res.0.Ok? ==> EncryptOf(key, iv, count, res.0.value) == (Ok(buf), res.1)
    ensures res.0.Err? ==> res.1 == count && res.0.error in {StructError, InvalidTag}
  {
    var n := Nonce(count, iv);
    if n.Err? then (Err(n.error), count)
    else
      match Open(key, n.value, buf)
      case None => (Err(InvalidTag), count)
      case Some(pt) => (Ok(pt), NextCount(count))
  }

  /** With the same key, iv and counter, decrypt undoes encrypt and both
      ends step their counters alike. */
  lemma DecryptEncrypt(key: seq<byte>, iv: seq<byte>, count: int, buf: seq<byte>)
    requires 0 <= count < 0x1_0000
    ensures var e := EncryptOf(key, iv, count, buf);
      DecryptOf(key, iv, count, e.0.value) == (Ok(buf), e.1)
  {
    OpenSeal(key, Nonce(count, iv).value, buf);
  }

  /** write_primitive: encrypt (which steps the counter), then frame. A
      ciphertext of 65536 bytes or more does not fit the length prefix,
      and by then the counter has already moved. */
  function FrameOf(key: seq<byte>, iv: seq<byte>, count: int, buf: seq<byte>): (res: (Result<seq<byte>>, int))
    ensures res.0.Ok? <==> 0 <= count < 0x1_0000 && |buf| + TAG_SIZE < 0x1_0000
    ensures 0 <= count < 0x1_0000 ==> res.1 == NextCount(count)
    ensures res.0.Err? ==> res.0.error == StructError
    ensures res.0.Ok? ==>
      var ct := EncryptOf(key, iv, count, buf).0.value;
      res.0.value == Pack16(|ct| as uint16) + ct
  {
    var e := EncryptOf(key, iv, count, buf);
    if e.0.Err? then e
    else if |e.0.value| >= 0x1_0000 then (Err(StructError), e.1)
    else (Ok(Pack16(|e.0.value| as uint16) + e.0.value), e.1)
  }

  /** u starts with one whole frame, its 2-byte length prefix and as many
      bytes as the prefix announces, and rest follows it. */
  predicate FrameThenRest(u: seq<byte>, rest: seq<byte>)
  {
    |u| >= 2 && |u| >= 2 + Unpack16(u[..2]) as nat && u == u[..2 + Unpack16(u[..2]) as nat] + rest
  }

  /** A length prefix followed by that many bytes is a frame whose extent
      can be read off the prefix. */
  lemma FrameConsumed(u: seq<byte>, prefix: seq<byte>, body: seq<byte>, rest: seq<byte>)
    requires |prefix| == 2 && |body| == Unpack16(prefix) as nat && u == prefix + body + rest
    ensures FrameThenRest(u, rest)
  {
    assert u[..2] == prefix;
    assert u[..2 + |body|] == prefix + body;
  }

  /** The frame read after a length prefix: a ciphertext that opens is
      the frame write_primitive sends for the opened plaintext, and one that
      does not has still consumed the announced bytes. */
  lemma SealedFrame(key: seq<byte>, iv: seq<byte>, count: int, prefix: seq<byte>, u: seq<byte>, ct: seq<byte>, rest: seq<byte>)
    requires |prefix| == 2 && |ct| == Unpack16(prefix) as nat && u == ct + rest
    ensures var d := DecryptOf(key, iv, count, ct);
      d.0.Ok? ==> FrameOf(key, iv, count, d.0.value) == (Ok(prefix + ct), d.1)
    ensures prefix + u == (prefix + ct) + rest
    ensures FrameThenRest(prefix + u, rest)
  {
    Pack16Unpack16(prefix);
    FrameConsumed(prefix + u, prefix, ct, rest);
  }

  /** The rest of a frame once its 2-byte length prefix has been read: as
      many bytes as the prefix announces, decrypted. */
  function ReadSealedOf(key: seq<byte>, iv: seq<byte>, count: int, prefix: seq<byte>, st: State): (res: (Result<seq<byte>>, int, State))
    requires |prefix| == 2
    ensures res.0.Err? ==> res.1 == count
    ensures res.0.Ok? ==>
      var f := FrameOf(key, iv, count, res.0.value);
      f.0.Ok? && f.1 == res.1 && prefix + Unconsumed(st) == f.0.value + Unconsumed(res.2)
    ensures res.0 == Err(InvalidTag) ==> FrameThenRest(prefix + Unconsumed(st), Unconsumed(res.2))
  {
    var b := ExactlyOf(Unpack16(prefix) as nat, st);
    if b.0.Err? then (Err(b.0.error), count, b.1)
    else
      var d := DecryptOf(key, iv, count, b.0.value);
      SealedFrame(key, iv, count, prefix, Unconsumed(st), b.0.value, Unconsumed(b.1));
      (d.0, d.1, b.1)
  }

  /** The part of read_primitive after a non-empty peek: the 2-byte length,
      then that many bytes, decrypted. A plaintext comes from exactly one
      frame, and a tag that fails to verify has still consumed the whole
      frame that the length announced. */
  function ReadOneFrameOf(key: seq<byte>, iv: seq<byte>, count: int, st: State): (res: (Result<seq<byte>>, int, State))
    ensures res.0.Err? ==> res.1 == count
    ensures res.0.Ok? ==>
      var f := FrameOf(key, iv, count, res.0.value);
      f.0.Ok? && f.1 == res.1 && Unconsumed(st) == f.0.value + Unconsumed(res.2)
    ensures res.0 == Err(InvalidTag) ==> FrameThenRest(Unconsumed(st), Unconsumed(res.2))
  {
    var h := ExactlyOf(2, st);
    if h.0.Err? then (Err(h.0.error), count, h.1)
    else ReadSealedOf(key, iv, count, h.0.value, h.1)
  }

  /** read_primitive over the state of the next layer: an empty peek is end
      of stream and leaves the counter alone; otherwise exactly one frame is
      consumed, the 2-byte length and then that many bytes, and decrypted.
      The result is either that end of stream or the plaintext of the frame
      found at the front of the next layer; a frame whose tag fails to
      verify is consumed in full. */
  function ReadFrameOf(key: seq<byte>, iv: seq<byte>, count: int, st: State): (res: (Result<seq<byte>>, int, State))
    ensures res.0.Err? ==> res.1 == count
    ensures res.0.Ok? ==>
      || (res.0.value == [] && res.1 == count && Unconsumed(res.2) == Unconsumed(st))
      || (var f := FrameOf(key, iv, count, res.0.value);
          f.0.Ok? && f.1 == res.1 && Unconsumed(st) == f.0.value + Unconsumed(res.2))
    ensures res.0 == Err(InvalidTag) ==> FrameThenRest(Unconsumed(st), Unconsumed(res.2))
  {
    var p := PeekOf(st);
    if |p.0| == 0 then (Ok([]), count, p.1)
    else ReadOneFrameOf(key, iv, count, p.1)
  }

  /** A frame written with some key, iv and counter and read back, on a
      tame next layer, with the same key, iv and counter yields the
      original plaintext, consumes exactly the frame, and leaves both ends
      with the same new counter. */
  lemma FrameRoundTrip(key: seq<byte>, iv: seq<byte>, count: int, buf: seq<byte>, tail: seq<byte>, st: State)
    requires FrameOf(key, iv, count, buf).0.Ok?
    requires Tame(st) && Unconsumed(st) == FrameOf(key, iv, count, buf).0.value + tail
    ensures ReadFrameOf(key, iv, count, st).0 == Ok(buf)
    ensures ReadFrameOf(key, iv, count, st).1 == FrameOf(key, iv, count, buf).1
    ensures Unconsumed(ReadFrameOf(key, iv, count, st).2) == tail && Tame(ReadFrameOf(key, iv, count, st).2)
  {
    var ct := EncryptOf(key, iv, count, buf).0.value;
    var n := |ct|;
    assert Unconsumed(st) == Pack16(n as uint16) + (ct + tail);
    PeekTame(st);
    var p := PeekOf(st);
    ExactlyTame(2, p.1);
    var h := ExactlyOf(2, p.1);
    assert h.0.value == Pack16(n as uint16);
    Unpack16Pack16(n as uint16);
    ExactlyTame(n, h.1);
    assert ExactlyOf(n, h.1).0 == Ok(ct);
    DecryptEncrypt(key, iv, count, buf);
  }

  class CounteredAesGcm {
    const key: seq<byte>
    const iv: seq<byte>
    var count: int

    constructor (key: seq<byte>, iv: seq<byte>, count: int)
      ensures this.key == key && this.iv == iv && this.count == count
    {
      this.key := key;
      this.iv := iv;
      this.count := count;
    }

    method Encrypt(buf: seq<byte>) returns (r: Result<seq<byte>>)
      modifies this`count
      ensures (r, count) == EncryptOf(key, iv, old(count), buf)
    {
      var nonce := Nonce(count, iv);
      if nonce.Err? {
        return Err(nonce.error);
      }
      r := Ok(Seal(key, nonce.value, buf));
      count := (count + 1) % 0x1_0000;
    }

    method Decrypt(buf: seq<byte>) returns (r: Result<seq<byte>>)
      modifies this`count
      ensures (r, count) == DecryptOf(key, iv, old(count), buf)
    {
      var nonce := Nonce(count, iv);
      if nonce.Err? {
        return Err(nonce.error);
      }
      var pt := Open(key, nonce.value, buf);
      if pt.None? {
        return Err(InvalidTag);
      }
      r := Ok(pt.value);
      count := (count + 1) % 0x1_0000;
    }
  }

  /** The two primitives of VmessStream over its next layer. */
  class VmessStream {
    const writeEncryptor: CounteredAesGcm
    const readDecryptor: CounteredAesGcm
    const next: Stream

    constructor (writeEncryptor: CounteredAesGcm, readDecryptor: CounteredAesGcm, next: Stream)
      ensures this.writeEncryptor == writeEncryptor && this.readDecryptor == readDecryptor && this.next == next
    {
      this.writeEncryptor := writeEncryptor;
      this.readDecryptor := readDecryptor;
      this.next := next;
    }

    /** One write of the frame to the next layer, or none when encrypting
        or framing fails; the read counter is not touched when it is a
        separate object. */
    method WritePrimitive(buf: seq<byte>) returns (o: Outcome)
      modifies writeEncryptor`count, next`written
      ensures var f := FrameOf(writeEncryptor.key, writeEncryptor.iv, old(writeEncryptor.count), buf);
        && writeEncryptor.count == f.1
        && o == (if f.0.Ok? then Pass else Fail(f.0.error))
        && next.written == old(next.written) + (if f.0.Ok? then [f.0.value] else [])
      ensures readDecryptor != writeEncryptor ==> readDecryptor.count == old(readDecryptor.count)
    {
      var ct := writeEncryptor.Encrypt(buf);
      if ct.Err? {
        return Fail(ct.error);
      }
      if |ct.value| >= 0x1_0000 {
        return Fail(StructError);
      }
      next.Write(Pack16(|ct.value| as uint16) + ct.value);
      o := Pass;
    }

    method ReadPrimitive() returns (r: Result<seq<byte>>)
      modifies readDecryptor`count, next`toRead, next`source
      ensures (r, readDecryptor.count, next.St())
        == ReadFrameOf(readDecryptor.key, readDecryptor.iv, old(readDecryptor.count), old(next.St()))
      ensures readDecryptor != writeEncryptor ==> writeEncryptor.count == old(writeEncryptor.count)
    {
      var peeked := next.Peek();
      if |peeked| == 0 {
        return Ok([]);
      }
      var h := next.ReadExactly(2);
      if h.Err? {
        return Err(h.error);
      }
      var blen := Unpack16(h.value);
      var b := next.ReadExactly(blen as nat);
      if b.Err? {
        return Err(b.error);
      }
      r := readDecryptor.Decrypt(b.value);
    }
  }
}
