/**
 * The per-width sample codec the rasters call (ByteArrayUtils.getShort /
 * setShort, getFloat / setFloat, getDouble / setDouble in the original).
 *
 * Its byte order is not part of this model: a codec is a value holding its
 * width and its encode / decode pair, and every raster operation relies only
 * on the laws of `Lawful`. A big-endian instance is given to show that the
 * laws can be met; nothing else depends on it.
 */
module ByteCodec {
  import opened JavaInt

  datatype Codec<!T> = Codec(
    width: nat,                  // bytes per sample
    zero: T,                     // the sample whose encoding is all zero bytes
    encode: T -> seq<JByte>,
    decode: seq<JByte> -> T)

  function Zeros(n: nat): (z: seq<JByte>)
    ensures |z| == n
    ensures forall i :: 0 <= i < n ==> z[i] == 0
  {
    seq(n, _ => 0)
  }

  /** What every codec promises: fixed width, decode undoes encode, and the
      zero sample is stored as zero bytes (true of every byte order). */
  ghost predicate Lawful<T(!new)>(c: Codec<T>) {
    && 0 < c.width
    && (forall v :: |c.encode(v)| == c.width)
    && (forall v :: c.decode(c.encode(v)) == v)
    && c.encode(c.zero) == Zeros(c.width)
  }

  /** Decoding the zero bytes gives the zero sample. */
  lemma DecodeZeros<T(!new)>(c: Codec<T>)
    requires Lawful(c)
    ensures c.decode(Zeros(c.width)) == c.zero
  {
    assert c.decode(c.encode(c.zero)) == c.zero;
  }

  /** `s` with `bytes` written over it from position `off` on. */
  function Overwrite(s: seq<JByte>, off: nat, bytes: seq<JByte>): (r: seq<JByte>)
    requires off + |bytes| <= |s|
    ensures |r| == |s|
    ensures r[off..off + |bytes|] == bytes
    ensures forall j :: 0 <= j < |s| && !(off <= j < off + |bytes|) ==> r[j] == s[j]
  {
    s[..off] + bytes + s[off + |bytes|..]
  }

  /** Bytes outside the overwritten range keep their values. */
  lemma OverwriteKeepsOthers(s: seq<JByte>, off: nat, bytes: seq<JByte>, o: nat, n: nat)
    requires off + |bytes| <= |s| && o + n <= |s|
    requires o + n <= off || off + |bytes| <= o
    ensures Overwrite(s, off, bytes)[o..o + n] == s[o..o + n]
  {
    var r := Overwrite(s, off, bytes);
    assert forall k :: o <= k < o + n ==> r[k] == s[k];
  }

  /** Writing `bytes` at the front of n zero bytes leaves `bytes` followed by
      zeros. */
  lemma OverwriteZeros(n: nat, bytes: seq<JByte>)
    requires |bytes| <= n
    ensures Overwrite(Zeros(n), 0, bytes)[..|bytes|] == bytes
    ensures forall i :: |bytes| <= i < n ==> Overwrite(Zeros(n), 0, bytes)[i] == 0
  {
    var r := Overwrite(Zeros(n), 0, bytes);
    assert r[..|bytes|] == r[0..|bytes|];
  }

  /** The sample stored at data[off .. off + width). */
  function Get<T>(c: Codec<T>, data: array<JByte>, off: nat): T
    reads data
    requires off + c.width <= data.Length
  {
    c.decode(data[off..off + c.width])
  }

  /** Copies `bytes` into data[off .. off + |bytes|), one byte at a time,
      and touches nothing else. */
  method WriteBytes(bytes: seq<JByte>, data: array<JByte>, off: nat)
    requires off + |bytes| <= data.Length
    modifies data
    ensures data[..] == Overwrite(old(data[..]), off, bytes)
  {
    for i := 0 to |bytes|
      invariant forall j :: 0 <= j < data.Length ==>
        data[j] == if off <= j < off + i then bytes[j - off] else old(data[j])
    {
      data[off + i] := bytes[i];
    }
    assert forall j :: 0 <= j < data.Length ==> data[..][j] == Overwrite(old(data[..]), off, bytes)[j];
  }

  /** Stores the encoding of `v` at data[off .. off + width). */
  method Put<T(!new)>(c: Codec<T>, v: T, data: array<JByte>, off: nat)
    requires Lawful(c)
    requires off + c.width <= data.Length
    modifies data
    ensures data[..] == Overwrite(old(data[..]), off, c.encode(v))
    ensures Get(c, data, off) == v
  {
    WriteBytes(c.encode(v), data, off);
    assert data[off..off + c.width] == c.encode(v);
  }

  /** Big-endian two's-complement encoding of a Java short:
      [(byte)(v >> 8), (byte) v]. */
  function ShortBigEndianEncode(v: JShort): (bs: seq<JByte>)
    ensures |bs| == 2
  {
    [ToByte(v / 0x100), ToByte(v)]
  }

  /** (short)(((b0 & 0xff) << 8) | (b1 & 0xff)) */
  function ShortBigEndianDecode(bs: seq<JByte>): JShort {
    if |bs| == 2 then ToShort((bs[0] as int % 0x100) * 0x100 + bs[1] as int % 0x100) else 0
  }

  lemma ShortBigEndianRoundTrip(v: JShort)
    ensures ShortBigEndianDecode(ShortBigEndianEncode(v)) == v
  {
    var hi: int, lo: int := ToByte(v / 0x100), ToByte(v);
    assert hi % 0x100 == (v / 0x100) % 0x100;
    assert lo % 0x100 == v % 0x100;
    var u := (hi % 0x100) * 0x100 + lo % 0x100;
    assert u == v % SHORT_MOD;
    assert (u - v) % SHORT_MOD == 0;
    WrapUnique(u, v, SHORT_MOD);
  }

  function ShortBigEndian(): (c: Codec<JShort>)
    ensures Lawful(c) && c.width == 2 && c.zero == 0
  {
    forall v: JShort ensures ShortBigEndianDecode(ShortBigEndianEncode(v)) == v {
      ShortBigEndianRoundTrip(v);
    }
    Codec(2, 0, ShortBigEndianEncode, ShortBigEndianDecode)
  }

  /** Big-endian encoding of a Java int: the big-endian bytes of its high
      short followed by those of its low short. */
  function IntBigEndianEncode(v: JInt): (bs: seq<JByte>)
    ensures |bs| == 4
  {
    ShortBigEndianEncode(ToShort(v / SHORT_MOD)) + ShortBigEndianEncode(ToShort(v))
  }

  function IntBigEndianDecode(bs: seq<JByte>): JInt {
    if |bs| == 4 then
      ToInt((ShortBigEndianDecode(bs[..2]) as int % SHORT_MOD) * SHORT_MOD
            + ShortBigEndianDecode(bs[2..]) as int % SHORT_MOD)
    else 0
  }

  /** Two values congruent modulo 2^16 have the same remainder. */
  lemma SameLow16(a: int, b: int)
    requires (a - b) % SHORT_MOD == 0
    ensures a % SHORT_MOD == b % SHORT_MOD
  {
    var k := (a - b) / SHORT_MOD;
    assert a == b + SHORT_MOD * k;
  }

  /** The low 32 bits of v are its high and low 16-bit halves. */
  lemma SplitLow32(v: int)
    ensures v % INT_MOD == ((v / SHORT_MOD) % SHORT_MOD) * SHORT_MOD + v % SHORT_MOD
  {
    var q := v / SHORT_MOD;
    var r := v % SHORT_MOD;
    var q2 := q / SHORT_MOD;
    var r2 := q % SHORT_MOD;
    assert v == SHORT_MOD * q + r;
    assert q == SHORT_MOD * q2 + r2;
    assert v == INT_MOD * q2 + (r2 * SHORT_MOD + r);
    assert 0 <= r2 * SHORT_MOD + r < INT_MOD;
  }

  lemma IntBigEndianRoundTrip(v: JInt)
    ensures IntBigEndianDecode(IntBigEndianEncode(v)) == v
  {
    var hi: int, lo: int := ToShort(v / SHORT_MOD), ToShort(v);
    var bs := IntBigEndianEncode(v);
    assert bs[..2] == ShortBigEndianEncode(hi);
    assert bs[2..] == ShortBigEndianEncode(lo);
    ShortBigEndianRoundTrip(hi);
    ShortBigEndianRoundTrip(lo);
    SameLow16(v / SHORT_MOD, hi);
    SameLow16(v, lo);
    SplitLow32(v);
    var u := (hi % SHORT_MOD) * SHORT_MOD + lo % SHORT_MOD;
    assert u == v % INT_MOD;
    CongruentToMod(v, INT_MOD);
    WrapUnique(u, v, INT_MOD);
  }
}
