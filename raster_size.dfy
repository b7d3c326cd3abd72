/**
 * The size computation and size check of the three createEmptyRaster
 * factories, as written and as intended.
 *
 * MrGeoShortRaster and MrGeoDoubleRaster compute
 *   (long) width * (long) height * (long) bands * (long) BYTES_PER_PIXEL + HEADER_LEN
 * in 64-bit arithmetic, reject a total above Integer.MAX_VALUE, and allocate
 * new byte[(int) bytes]. MrGeoFloatRaster computes the same sum in 32-bit
 * arithmetic and allocates it unchecked. Neither checks that the dimensions
 * are non-negative.
 *
 * The 64-bit product of three ints can itself wrap (2^21 * 2^21 * 2^21 * 2
 * is 2^64), and the 32-bit one wraps much earlier, so the as-written
 * decisions can allocate a buffer far smaller than the raster needs.
 * `CheckedSizing` is the intended decision, on the exact total; the factories
 * of this model use it.
 */
module RasterSize {
  import opened JavaInt
  import opened RasterLayout

  /** The total as the short and double factories evaluate it in `long`. */
  function LongTotalAsWritten(width: JInt, height: JInt, bands: JInt, bpp: nat, headerLen: nat): (t: JLong)
    ensures t == ToLong(TotalBytes(width, height, bands, bpp, headerLen))
  {
    WrapMul(width * height, bands, LONG_MOD);
    WrapMul(width * height * bands, bpp, LONG_MOD);
    WrapAdd(width * height * bands * bpp, headerLen, LONG_MOD);
    ToLong(ToLong(ToLong(ToLong(width * height) * bands) * bpp) + headerLen)
  }

  /** The total as the float factory evaluates it in `int`. */
  function IntTotalAsWritten(width: JInt, height: JInt, bands: JInt, bpp: nat, headerLen: nat): (t: JInt)
    ensures t == ToInt(TotalBytes(width, height, bands, bpp, headerLen))
  {
    WrapMul(width * height, bands, INT_MOD);
    WrapMul(width * height * bands, bpp, INT_MOD);
    WrapAdd(width * height * bands * bpp, headerLen, INT_MOD);
    ToInt(ToInt(ToInt(ToInt(width * height) * bands) * bpp) + headerLen)
  }

  /** How a factory call ends. */
  datatype Sizing =
    | Allocate(size: nat)       // a zero-filled byte[size] that holds the header
    | TooLarge(total: int)      // MrGeoRasterException, before any allocation
    | NegativeSize(length: int) // new byte[length] with length < 0: NegativeArraySizeException
    | HeaderOverrun(short: nat) // a buffer shorter than HEADER_LEN: writing the header fails

  /** What `new byte[n]` followed by writing headerLen header bytes leads to. */
  function Allocation(n: int, headerLen: nat): Sizing {
    if n < 0 then NegativeSize(n)
    else if n < headerLen then HeaderOverrun(n)
    else Allocate(n)
  }

  /** The decision of MrGeoShortRaster / MrGeoDoubleRaster.createEmptyRaster as written. */
  function LongSizingAsWritten(width: JInt, height: JInt, bands: JInt, bpp: nat, headerLen: nat): Sizing {
    var bytes := LongTotalAsWritten(width, height, bands, bpp, headerLen);
    if bytes > INT_MAX then TooLarge(bytes)
    else Allocation(ToInt(bytes), headerLen)
  }

  /** The decision of MrGeoFloatRaster.createEmptyRaster as written: no check. */
  function IntSizingAsWritten(width: JInt, height: JInt, bands: JInt, bpp: nat, headerLen: nat): Sizing {
    Allocation(IntTotalAsWritten(width, height, bands, bpp, headerLen), headerLen)
  }

  /** The intended decision: the exact total, rejected above Integer.MAX_VALUE. */
  function CheckedSizing(width: int, height: int, bands: int, bpp: nat, headerLen: nat): Sizing {
    var total := TotalBytes(width, height, bands, bpp, headerLen);
    if total > INT_MAX then TooLarge(total)
    else Allocation(total, headerLen)
  }

  /** The intended decision rejects exactly the totals above Integer.MAX_VALUE,
      allocates exactly when the header fits and the total does not exceed it,
      and then allocates the exact total, which holds the slot of every
      in-range sample. */
  lemma CheckedSizingSound(width: int, height: int, bands: int, bpp: nat, headerLen: nat)
    ensures var s := CheckedSizing(width, height, bands, bpp, headerLen);
            var total := TotalBytes(width, height, bands, bpp, headerLen);
            && (s.TooLarge? <==> total > INT_MAX)
            && (s.TooLarge? ==> s.total == total)
            && (s.Allocate? <==> headerLen <= total <= INT_MAX)
            && (s.Allocate? ==> s.size == total)
    ensures var s := CheckedSizing(width, height, bands, bpp, headerLen);
            s.Allocate? ==>
              forall x, y, band :: InRange(width, height, bands, x, y, band) ==>
                headerLen <= ByteOffset(headerLen, width, bands, bpp, x, y, band) &&
                ByteOffset(headerLen, width, bands, bpp, x, y, band) + bpp <= s.size
  {
    forall x, y, band | InRange(width, height, bands, x, y, band)
      ensures headerLen <= ByteOffset(headerLen, width, bands, bpp, x, y, band)
      ensures ByteOffset(headerLen, width, bands, bpp, x, y, band) + bpp
              <= TotalBytes(width, height, bands, bpp, headerLen)
    {
      SlotInBounds(headerLen, width, height, bands, bpp, x, y, band);
    }
  }

  /** Wherever the exact total fits in an int, or exceeds it without
      overflowing a long, the short and double factories decide as intended. */
  lemma LongSizingAgrees(width: JInt, height: JInt, bands: JInt, bpp: nat, headerLen: nat)
    requires INT_MIN <= TotalBytes(width, height, bands, bpp, headerLen) < LONG_MOD / 2
    ensures LongSizingAsWritten(width, height, bands, bpp, headerLen)
            == CheckedSizing(width, height, bands, bpp, headerLen)
  {
    var total := TotalBytes(width, height, bands, bpp, headerLen);
    ToLongExact(total);
    ToIntExact(total);
  }

  /** For non-negative dimensions below 2^20 the 64-bit arithmetic of the
      short and double factories cannot wrap, so they decide as intended. */
  lemma LongSizingExactBelow2To20(width: JInt, height: JInt, bands: JInt, bpp: nat, headerLen: nat)
    requires 0 <= width < 0x10_0000 && 0 <= height < 0x10_0000 && 0 <= bands < 0x10_0000
    requires bpp <= 8 && headerLen <= INT_MAX
    ensures LongSizingAsWritten(width, height, bands, bpp, headerLen)
            == CheckedSizing(width, height, bands, bpp, headerLen)
  {
    var m := 0xF_FFFF;
    assert 0 <= width * height <= m * m by {
      MulLe(0, width, height);
      MulLe(width, m, height);
      MulLe(height, m, m);
      assert m * height == height * m;
    }
    assert 0 <= width * height * bands <= m * m * m by {
      MulLe(0, width * height, bands);
      MulLe(width * height, m * m, bands);
      MulLe(bands, m, m * m);
      assert m * m * bands == bands * (m * m);
    }
    assert 0 <= width * height * bands * bpp <= m * m * m * 8 by {
      MulLe(0, width * height * bands, bpp);
      MulLe(width * height * bands, m * m * m, bpp);
      MulLe(bpp, 8, m * m * m);
      assert m * m * m * bpp == bpp * (m * m * m);
    }
    LongSizingAgrees(width, height, bands, bpp, headerLen);
  }

  /** Wherever the exact total fits in an int, the float factory decides as intended. */
  lemma IntSizingAgrees(width: JInt, height: JInt, bands: JInt, bpp: nat, headerLen: nat)
    requires INT_MIN <= TotalBytes(width, height, bands, bpp, headerLen) <= INT_MAX
    ensures IntSizingAsWritten(width, height, bands, bpp, headerLen)
            == CheckedSizing(width, height, bands, bpp, headerLen)
  {
    ToIntExact(TotalBytes(width, height, bands, bpp, headerLen));
  }

  /** A 2^64 + HEADER_LEN total wraps to HEADER_LEN in a long. */
  lemma LongWrapsToHeader(total: int, headerLen: nat)
    requires headerLen <= INT_MAX && total == LONG_MOD + headerLen
    ensures ToLong(total) == headerLen && ToInt(headerLen) == headerLen
  {
    WrapUnique(total, headerLen, LONG_MOD);
    ToIntExact(headerLen);
  }

  /** As written, a 2097152 x 2097152 x 2097152 short raster (2^64 + HEADER_LEN
      bytes) passes the size check and gets a buffer of HEADER_LEN bytes, too
      small for even its first sample; the intended check rejects it. */
  lemma ShortSizeCheckBypassed(headerLen: nat)
    requires 0 < headerLen <= INT_MAX
    ensures LongSizingAsWritten(0x20_0000, 0x20_0000, 0x20_0000, 2, headerLen) == Allocate(headerLen)
    ensures InRange(0x20_0000, 0x20_0000, 0x20_0000, 0, 0, 0)
    ensures ByteOffset(headerLen, 0x20_0000, 0x20_0000, 2, 0, 0, 0) + 2 > headerLen
    ensures CheckedSizing(0x20_0000, 0x20_0000, 0x20_0000, 2, headerLen).TooLarge?
  {
    LongWrapsToHeader(TotalBytes(0x20_0000, 0x20_0000, 0x20_0000, 2, headerLen), headerLen);
  }

  /** Below Integer.MIN_VALUE the decisions part: for a width of
      Integer.MIN_VALUE the long total is exact but negative, and its (int)
      cast wraps to HEADER_LEN, so the as-written factory allocates a
      header-only buffer where the intended one reports a negative size. */
  lemma NegativeTotalWraps(headerLen: nat)
    requires 0 < headerLen <= INT_MAX
    ensures LongSizingAsWritten(INT_MIN, 2, 1, 2, headerLen) == Allocate(headerLen)
    ensures CheckedSizing(INT_MIN, 2, 1, 2, headerLen) == NegativeSize(headerLen - 0x2_0000_0000)
  {
    var total := TotalBytes(INT_MIN, 2, 1, 2, headerLen);
    assert total == headerLen - 0x2_0000_0000;
    ToLongExact(total);
    WrapUnique(total, headerLen, INT_MOD);
  }

  /** As written, a 1048576 x 1048576 x 2097152 double raster passes the size
      check with a HEADER_LEN-byte buffer; the intended check rejects it. */
  lemma DoubleSizeCheckBypassed(headerLen: nat)
    requires 0 < headerLen <= INT_MAX
    ensures LongSizingAsWritten(0x10_0000, 0x10_0000, 0x20_0000, 8, headerLen) == Allocate(headerLen)
    ensures InRange(0x10_0000, 0x10_0000, 0x20_0000, 0, 0, 0)
    ensures ByteOffset(headerLen, 0x10_0000, 0x20_0000, 8, 0, 0, 0) + 8 > headerLen
    ensures CheckedSizing(0x10_0000, 0x10_0000, 0x20_0000, 8, headerLen).TooLarge?
  {
    LongWrapsToHeader(TotalBytes(0x10_0000, 0x10_0000, 0x20_0000, 8, headerLen), headerLen);
  }

  /** As written, a 65536 x 65536 x 1 float raster gets a HEADER_LEN-byte
      buffer: its 2^34-byte payload wraps to 0 in an int. */
  lemma FloatSizeWraps(headerLen: nat)
    requires 0 < headerLen <= INT_MAX
    ensures IntSizingAsWritten(0x1_0000, 0x1_0000, 1, 4, headerLen) == Allocate(headerLen)
    ensures ByteOffset(headerLen, 0x1_0000, 1, 4, 0, 0, 0) + 4 > headerLen
    ensures CheckedSizing(0x1_0000, 0x1_0000, 1, 4, headerLen).TooLarge?
  {
    var total := TotalBytes(0x1_0000, 0x1_0000, 1, 4, headerLen);
    assert total == 4 * INT_MOD + headerLen;
    WrapUnique(total, headerLen, INT_MOD);
  }

  /** As written, a 23171 x 23171 x 1 float raster wraps to a negative size,
      so the allocation itself fails. */
  lemma FloatSizeGoesNegative(headerLen: nat)
    requires 0 < headerLen < 0x4000_0000
    ensures IntSizingAsWritten(23171, 23171, 1, 4, headerLen).NegativeSize?
    ensures CheckedSizing(23171, 23171, 1, 4, headerLen).TooLarge?
  {
    var total := TotalBytes(23171, 23171, 1, 4, headerLen);
    assert total == 2147580964 + headerLen;
    WrapUnique(total, total - INT_MOD, INT_MOD);
  }

  /** A 100000 x 100000 x 4 double raster (3.2 * 10^11 bytes) is rejected,
      as written and as intended. */
  lemma HugeDoubleRejected(headerLen: nat)
    requires 0 < headerLen <= INT_MAX
    ensures LongSizingAsWritten(100000, 100000, 4, 8, headerLen)
            == CheckedSizing(100000, 100000, 4, 8, headerLen)
            == TooLarge(320000000000 + headerLen)
  {
    LongSizingAgrees(100000, 100000, 4, 8, headerLen);
  }
}
