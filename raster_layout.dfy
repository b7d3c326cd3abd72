/**
 * The binary layout shared by every storage variant of a raster tile: a
 * fixed-length header followed by a band-interleaved-by-pixel payload, and
 * the byte offset of sample (x, y, band) inside it.
 *
 * The header writer and its length belong to the MrGeoRaster base class,
 * which is not part of this model: a header format is a value with a length,
 * a writer and a reader, and the model relies only on `LawfulHeader`.
 * `SimpleHeader` is one format that meets those laws.
 */
module RasterLayout {
  import opened JavaInt
  import opened ByteCodec

  /** The storage-type tags written into the header (DataBuffer.TYPE_SHORT,
      TYPE_FLOAT, TYPE_DOUBLE); only their distinctness matters here. */
  datatype StorageTag = TypeShort | TypeFloat | TypeDouble

  /** The arguments writeHeader(width, height, bands, type, data) records. */
  datatype HeaderFields = HeaderFields(width: JInt, height: JInt, bands: JInt, tag: StorageTag)

  datatype HeaderFormat = HeaderFormat(
    len: nat,                                // HEADER_LEN
    write: HeaderFields -> seq<JByte>,       // the bytes writeHeader stores at [0, len)
    read: seq<JByte> -> HeaderFields)

  /** HEADER_LEN is a positive int constant, and the header bytes give back
      the fields they were written from. */
  ghost predicate LawfulHeader(h: HeaderFormat) {
    && 0 < h.len <= INT_MAX
    && (forall f :: |h.write(f)| == h.len)
    && (forall f :: h.read(h.write(f)) == f)
  }

  function TagByte(t: StorageTag): JByte {
    match t
    case TypeShort => 0
    case TypeFloat => 1
    case TypeDouble => 2
  }

  function TagOf(b: JByte): StorageTag {
    if b == 1 then TypeFloat else if b == 2 then TypeDouble else TypeShort
  }

  /** width, height and bands as big-endian ints, then the tag byte. */
  function SimpleHeaderWrite(f: HeaderFields): (bs: seq<JByte>)
    ensures |bs| == 13
  {
    IntBigEndianEncode(f.width) + IntBigEndianEncode(f.height) + IntBigEndianEncode(f.bands)
    + [TagByte(f.tag)]
  }

  function SimpleHeaderRead(bs: seq<JByte>): HeaderFields {
    if |bs| == 13 then
      HeaderFields(IntBigEndianDecode(bs[0..4]), IntBigEndianDecode(bs[4..8]),
                   IntBigEndianDecode(bs[8..12]), TagOf(bs[12]))
    else HeaderFields(0, 0, 0, TypeShort)
  }

  /** A 13-byte header format that meets the header laws. */
  function SimpleHeader(): (h: HeaderFormat)
    ensures LawfulHeader(h) && h.len == 13
  {
    forall f: HeaderFields ensures SimpleHeaderRead(SimpleHeaderWrite(f)) == f {
      var bs := SimpleHeaderWrite(f);
      assert bs[0..4] == IntBigEndianEncode(f.width);
      assert bs[4..8] == IntBigEndianEncode(f.height);
      assert bs[8..12] == IntBigEndianEncode(f.bands);
      IntBigEndianRoundTrip(f.width);
      IntBigEndianRoundTrip(f.height);
      IntBigEndianRoundTrip(f.bands);
    }
    HeaderFormat(13, SimpleHeaderWrite, SimpleHeaderRead)
  }

  predicate InRange(width: int, height: int, bands: int, x: int, y: int, band: int) {
    0 <= x < width && 0 <= y < height && 0 <= band < bands
  }

  /** The position of sample (x, y, band) in band-interleaved-by-pixel,
      row-major order. */
  function CellIndex(width: int, bands: int, x: int, y: int, band: int): int {
    (y * width + x) * bands + band
  }

  /** calculateByteOffset(x, y, band) */
  function ByteOffset(headerLen: nat, width: int, bands: int, bpp: nat, x: int, y: int, band: int): int {
    headerLen + CellIndex(width, bands, x, y, band) * bpp
  }

  /** width * height * bands * bytesPerPixel + HEADER_LEN, without wrap-around. */
  function TotalBytes(width: int, height: int, bands: int, bpp: nat, headerLen: nat): int {
    width * height * bands * bpp + headerLen
  }

  /** The same offset computed in Java `int` arithmetic, wrapping at every step. */
  function IntByteOffset(headerLen: nat, width: int, bands: int, bpp: nat, x: int, y: int, band: int): JInt {
    var row := ToInt(y * width);
    var pixel := ToInt(row + x);
    var cell := ToInt(ToInt(pixel * bands) + band);
    ToInt(ToInt(cell * bpp) + headerLen)
  }

  /** A number written as q * n + r with 0 <= r < n has only one such form. */
  lemma QuotRemUnique(q1: int, r1: int, q2: int, r2: int, n: int)
    requires 0 <= r1 < n && 0 <= r2 < n
    requires q1 * n + r1 == q2 * n + r2
    ensures q1 == q2 && r1 == r2
  {
    if q1 < q2 {
      MulLe(q1 + 1, q2, n);
      assert false;
    } else if q2 < q1 {
      MulLe(q2 + 1, q1, n);
      assert false;
    }
  }

  /** q * n + r with q < m and r < n stays below m * n. */
  lemma QuotRemBound(q: int, r: int, m: int, n: int)
    requires 0 <= q < m && 0 <= r < n
    ensures 0 <= q * n + r < m * n
  {
    MulLe(q + 1, m, n);
    MulLe(0, q, n);
    assert (q + 1) * n == q * n + n;
  }

  /** Every in-range sample has a position in [0, width * height * bands). */
  lemma CellIndexBounds(width: int, height: int, bands: int, x: int, y: int, band: int)
    requires InRange(width, height, bands, x, y, band)
    ensures 0 <= y * width + x < width * height
    ensures 0 <= CellIndex(width, bands, x, y, band) < width * height * bands
  {
    QuotRemBound(y, x, height, width);
    QuotRemBound(y * width + x, band, width * height, bands);
  }

  /** Distinct in-range samples have distinct positions (and equal ones the
      same position): the layout is injective. */
  lemma CellIndexInjective(width: int, height: int, bands: int,
                           x1: int, y1: int, b1: int, x2: int, y2: int, b2: int)
    requires InRange(width, height, bands, x1, y1, b1)
    requires InRange(width, height, bands, x2, y2, b2)
    ensures CellIndex(width, bands, x1, y1, b1) == CellIndex(width, bands, x2, y2, b2)
            <==> (x1, y1, b1) == (x2, y2, b2)
  {
    if CellIndex(width, bands, x1, y1, b1) == CellIndex(width, bands, x2, y2, b2) {
      QuotRemUnique(y1 * width + x1, b1, y2 * width + x2, b2, bands);
      QuotRemUnique(y1, x1, y2, x2, width);
    }
  }

  /** The slot of an in-range sample lies inside the payload of a buffer of
      TotalBytes bytes. */
  lemma SlotInBounds(headerLen: nat, width: int, height: int, bands: int, bpp: nat,
                     x: int, y: int, band: int)
    requires InRange(width, height, bands, x, y, band)
    ensures headerLen <= ByteOffset(headerLen, width, bands, bpp, x, y, band)
    ensures ByteOffset(headerLen, width, bands, bpp, x, y, band) + bpp
            <= TotalBytes(width, height, bands, bpp, headerLen)
  {
    var k := CellIndex(width, bands, x, y, band);
    CellIndexBounds(width, height, bands, x, y, band);
    MulLe(0, k, bpp);
    MulLe(k + 1, width * height * bands, bpp);
    assert (k + 1) * bpp == k * bpp + bpp;
  }

  /** The offset of an in-range sample, known to lie in the payload. */
  function SlotOffset(headerLen: nat, width: int, height: int, bands: int, bpp: nat,
                      x: int, y: int, band: int): (o: int)
    requires InRange(width, height, bands, x, y, band)
    ensures o == ByteOffset(headerLen, width, bands, bpp, x, y, band)
    ensures headerLen <= o && o + bpp <= TotalBytes(width, height, bands, bpp, headerLen)
  {
    SlotInBounds(headerLen, width, height, bands, bpp, x, y, band);
    ByteOffset(headerLen, width, bands, bpp, x, y, band)
  }

  /** The slots of two different in-range samples do not overlap. */
  lemma SlotsDisjoint(headerLen: nat, width: int, height: int, bands: int, bpp: nat,
                      x1: int, y1: int, b1: int, x2: int, y2: int, b2: int)
    requires InRange(width, height, bands, x1, y1, b1)
    requires InRange(width, height, bands, x2, y2, b2)
    requires (x1, y1, b1) != (x2, y2, b2)
    ensures var o1 := ByteOffset(headerLen, width, bands, bpp, x1, y1, b1);
            var o2 := ByteOffset(headerLen, width, bands, bpp, x2, y2, b2);
            o1 + bpp <= o2 || o2 + bpp <= o1
  {
    var k1 := CellIndex(width, bands, x1, y1, b1);
    var k2 := CellIndex(width, bands, x2, y2, b2);
    CellIndexInjective(width, height, bands, x1, y1, b1, x2, y2, b2);
    if k1 < k2 {
      MulLe(k1 + 1, k2, bpp);
      assert (k1 + 1) * bpp == k1 * bpp + bpp;
    } else {
      MulLe(k2 + 1, k1, bpp);
      assert (k2 + 1) * bpp == k2 * bpp + bpp;
    }
  }

  /** In a buffer that fits in an int, every intermediate result of the
      offset computation lies between 0 and Integer.MAX_VALUE. */
  lemma OffsetSteps(headerLen: nat, width: int, height: int, bands: int, bpp: nat,
                    x: int, y: int, band: int)
    requires 0 < bpp
    requires InRange(width, height, bands, x, y, band)
    requires TotalBytes(width, height, bands, bpp, headerLen) <= INT_MAX
    ensures var p := y * width + x;
            var k := CellIndex(width, bands, x, y, band);
            0 <= y * width <= p <= p * bands <= k <= k * bpp
            <= ByteOffset(headerLen, width, bands, bpp, x, y, band) <= INT_MAX
  {
    var p := y * width + x;
    var k := CellIndex(width, bands, x, y, band);
    SlotInBounds(headerLen, width, height, bands, bpp, x, y, band);
    CellIndexBounds(width, height, bands, x, y, band);
    assert 0 <= y * width <= p by { MulLe(0, y, width); }
    assert p <= p * bands <= k by { MulLe(1, bands, p); MulLe(0, p, bands); }
    assert k <= k * bpp by { MulLe(1, bpp, k); }
  }

  /** The cell-index part of the 32-bit offset computation is exact once
      every intermediate result is known to fit. */
  lemma IntCellIndexExact(width: int, bands: int, x: int, y: int, band: int)
    requires var p := y * width + x;
             0 <= y * width <= p <= p * bands <= CellIndex(width, bands, x, y, band) <= INT_MAX
    ensures ToInt(ToInt(ToInt(ToInt(y * width) + x) * bands) + band) == CellIndex(width, bands, x, y, band)
  {
    var p := y * width + x;
    assert ToInt(y * width) == y * width by { ToIntExact(y * width); }
    assert ToInt(p) == p by { ToIntExact(p); }
    assert ToInt(p * bands) == p * bands by { ToIntExact(p * bands); }
    ToIntExact(CellIndex(width, bands, x, y, band));
  }

  /** When the whole buffer fits in an int, computing a sample's offset in
      32-bit arithmetic never wraps: it gives the exact offset. */
  lemma IntByteOffsetExact(headerLen: nat, width: int, height: int, bands: int, bpp: nat,
                           x: int, y: int, band: int)
    requires 0 < bpp
    requires InRange(width, height, bands, x, y, band)
    requires TotalBytes(width, height, bands, bpp, headerLen) <= INT_MAX
    ensures IntByteOffset(headerLen, width, bands, bpp, x, y, band)
            == ByteOffset(headerLen, width, bands, bpp, x, y, band)
  {
    var k := CellIndex(width, bands, x, y, band);
    var o := ByteOffset(headerLen, width, bands, bpp, x, y, band);
    OffsetSteps(headerLen, width, height, bands, bpp, x, y, band);
    IntCellIndexExact(width, bands, x, y, band);
    assert ToInt(ToInt(k * bpp) + headerLen) == o by { ToIntExact(k * bpp); ToIntExact(o); }
  }
}
