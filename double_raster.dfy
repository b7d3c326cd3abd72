/**
 * MrGeoDoubleRaster: a raster tile of `double` samples, eight bytes each.
 *
 * A sample is modelled as the 64 bits of its IEEE 754 representation, held
 * in a Java `long`; what a getter or setter does to convert between those
 * bits and a byte, short, int or float is not part of this model. Every
 * setPixel overload converts its argument to double and stores it with the
 * same eight-byte write, which is `SetPixelDouble` here.
 */
module DoubleRaster {
  import opened JavaInt
  import opened ByteCodec
  import opened RasterLayout
  import opened RasterSize
  import opened Tile

  /** BYTES_PER_PIXEL */
  const BYTES_PER_PIXEL: nat := 8

  /** A valid tile of this storage type. */
  ghost predicate IsDoubleRaster(r: Raster<JLong>)
    reads r.data
  {
    r.Valid() && r.tag == TypeDouble && r.bytesPerPixel == BYTES_PER_PIXEL
  }

  /** createEmptyRaster(width, height, bands), with the 64-bit total checked
      without wrap-around (see RasterSize). */
  method CreateEmptyRaster(width: JInt, height: JInt, bands: JInt,
                           codec: Codec<JLong>, header: HeaderFormat)
    returns (res: Created<JLong>)
    requires Lawful(codec) && codec.width == BYTES_PER_PIXEL && codec.zero == 0 && LawfulHeader(header)
    ensures var s := CheckedSizing(width, height, bands, BYTES_PER_PIXEL, header.len);
            && (res.Created? <==> s.Allocate?)
            && (res.Failed? ==> res.error == SizingError(s, width, height, bands, BYTES_PER_PIXEL, header.len))
    ensures res.Created? ==>
              && fresh(res.raster) && fresh(res.raster.data)
              && IsEmptyRaster(res.raster, width, height, bands, TypeDouble, codec, header)
              && IsDoubleRaster(res.raster)
              && forall x, y, band :: res.raster.Contains(x, y, band) ==> GetPixelDoubleBits(res.raster, x, y, band) == 0
  {
    res := CreateEmpty(width, height, bands, TypeDouble, codec, header);
  }

  /** The bits of the double stored in the slot of (x, y, band), which every
      getter converts from. */
  function GetPixelDoubleBits(r: Raster<JLong>, x: int, y: int, band: int): JLong
    reads r.data
    requires IsDoubleRaster(r) && r.Contains(x, y, band)
  {
    r.Sample(x, y, band)
  }

  /** ByteArrayUtils.setDouble(pixel, data, calculateByteOffset(x, y, band)),
      the store behind every setPixel overload: only the eight-byte slot of
      (x, y, band) changes. */
  method SetPixelDouble(r: Raster<JLong>, x: int, y: int, band: int, bits: JLong)
    requires IsDoubleRaster(r) && r.Contains(x, y, band)
    modifies r.data
    ensures IsDoubleRaster(r) && Stored(r, x, y, band, bits)
    ensures GetPixelDoubleBits(r, x, y, band) == bits
  {
    r.SetSample(x, y, band, bits);
  }

  /** bytesPerPixel(): the slot width of every sample. */
  function BytesPerPixel(r: Raster<JLong>): (n: nat)
    reads r.data
    requires IsDoubleRaster(r)
    ensures n == 8 && n == r.codec.width
  {
    r.BytesPerPixel()
  }
}
