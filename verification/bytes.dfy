/** Byte-level building blocks shared by every layer: octets, the 16-bit
    big-endian field that every wire format here uses (struct format '!H'),
    concatenation of chunk sequences and decimal numbers. */
module Bytes {

  newtype byte = x: int | 0 <= x < 0x100
  newtype uint16 = x: int | 0 <= x < 0x1_0000

  /** struct.pack('!H', v): two bytes, most significant first. */
  function Pack16(v: uint16): (r: seq<byte>)
    ensures |r| == 2
    ensures r[0] as int * 0x100 + r[1] as int == v as int
  {
    [(v / 0x100) as byte, (v % 0x100) as byte]
  }

  /** struct.unpack('!H', b) for a two-byte buffer. */
  function Unpack16(b: seq<byte>): (v: uint16)
    requires |b| == 2
    ensures v as int == b[0] as int * 0x100 + b[1] as int
  {
    (b[0] as int * 0x100 + b[1] as int) as uint16
  }

  lemma Unpack16Pack16(v: uint16)
    ensures Unpack16(Pack16(v)) == v
  {
  }

  lemma Pack16Unpack16(b: seq<byte>)
    requires |b| == 2
    ensures Pack16(Unpack16(b)) == b
  {
    var r := Pack16(Unpack16(b));
    assert r[0] == b[0] && r[1] == b[1];
  }

  /** Two distinct counters never share their packed form. */
  lemma Pack16Injective(v: uint16, w: uint16)
    requires v != w
    ensures Pack16(v) != Pack16(w)
  {
    if Pack16(v) == Pack16(w) {
      Unpack16Pack16(v);
      Unpack16Pack16(w);
    }
  }

  /** All chunks of a sequence of reads, in order. */
  function Flatten(cs: seq<seq<byte>>): (r: seq<byte>)
  {
    if cs == [] then [] else cs[0] + Flatten(cs[1..])
  }

  lemma {:induction false} FlattenAppend(a: seq<seq<byte>>, b: seq<seq<byte>>)
    ensures Flatten(a + b) == Flatten(a) + Flatten(b)
  {
    if a == [] {
      assert a + b == b;
    } else {
      assert (a + b)[1..] == a[1..] + b;
      FlattenAppend(a[1..], b);
    }
  }

  /** Whether s starts with prefix p. */
  predicate StartsWith(s: seq<byte>, p: seq<byte>)
  {
    |p| <= |s| && s[..|p|] == p
  }

  const CRLF: seq<byte> := [13, 10]
  const CRLFCRLF: seq<byte> := [13, 10, 13, 10]

  predicate IsDigit(b: byte)
  {
    '0' as int <= b as int <= '9' as int
  }

  /** 10 to the power k. */
  function Pow10(k: nat): (p: nat)
    ensures p > 0
  {
    if k == 0 then 1 else 10 * Pow10(k - 1)
  }

  /** Python's int() of a non-empty run of ASCII decimal digits. */
  function ParseDecimal(ds: seq<byte>): (n: nat)
    requires forall i :: 0 <= i < |ds| ==> IsDigit(ds[i])
    ensures n < Pow10(|ds|)
  {
    if ds == [] then 0
    else
      assert IsDigit(ds[|ds| - 1]);
      ParseDecimal(ds[..|ds| - 1]) * 10 + (ds[|ds| - 1] as int - '0' as int)
  }

  /** The decimal text of a natural number, as str.format renders it. */
  function Decimal(n: nat): (ds: seq<byte>)
    ensures |ds| > 0
    ensures forall i :: 0 <= i < |ds| ==> IsDigit(ds[i])
    ensures n > 0 ==> ds[0] != '0' as int as byte
  {
    if n < 10 then [(n + '0' as int) as byte]
    else Decimal(n / 10) + [(n % 10 + '0' as int) as byte]
  }

  lemma {:induction false} ParseDecimalOfDecimal(n: nat)
    ensures ParseDecimal(Decimal(n)) == n
  {
    var ds := Decimal(n);
    if n >= 10 {
      ParseDecimalOfDecimal(n / 10);
      assert ds[..|ds| - 1] == Decimal(n / 10);
    }
  }
}
