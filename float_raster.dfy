/**
 * MrGeoFloatRaster: a raster tile of `float` samples, four bytes each.
 *
 * A sample is modelled as the 32 bits of its IEEE 754 representation, held
 * in a Java `int`; what a getter or setter does to convert between those
 * bits and a byte, short, int or double is not part of this model. Each of
 * the setters setPixel(byte), setPixel(short), setPixe(int), setPixel(float)
 * and setPixel(double) converts its argument to float and stores it with the
 * same four-byte write, which is `SetPixelFloat` here.
 */
module FloatRaster {
  import opened JavaInt
  import opened ByteCodec
  import opened RasterLayout
  import opened RasterSize
  import opened Tile

  /** BYTES_PER_PIXEL */
  const BYTES_PER_PIXEL: nat := 4

  /** A valid tile of this storage type. */
  ghost predicate IsFloatRaster(r: Raster<JInt>)
    reads r.data
  {
    r.Valid() && r.tag == TypeFloat && r.bytesPerPixel == BYTES_PER_PIXEL
  }

  /** createEmptyRaster(width, height, bands), with the size computed without
      wrap-around and checked (the 32-bit, unchecked original is
      RasterSize.IntSizingAsWritten). */
  method CreateEmptyRaster(width: JInt, height: JInt, bands: JInt,
                           codec: Codec<JInt>, header: HeaderFormat)
    returns (res: Created<JInt>)
    requires Lawful(codec) && codec.width == BYTES_PER_PIXEL && codec.zero == 0 && LawfulHeader(header)
    ensures var s := CheckedSizing(width, height, bands, BYTES_PER_PIXEL, header.len);
            && (res.Created? <==> s.Allocate?)
            && (res.Failed? ==> res.error == SizingError(s, width, height, bands, BYTES_PER_PIXEL, header.len))
    ensures res.Created? ==>
              && fresh(res.raster) && fresh(res.raster.data)
              && IsEmptyRaster(res.raster, width, height, bands, TypeFloat, codec, header)
              && IsFloatRaster(res.raster)
              && forall x, y, band :: res.raster.Contains(x, y, band) ==> GetPixelFloatBits(res.raster, x, y, band) == 0
  {
    res := CreateEmpty(width, height, bands, TypeFloat, codec, header);
  }

  /** The bits of the float stored in the slot of (x, y, band), which every
      getter converts from. */
  function GetPixelFloatBits(r: Raster<JInt>, x: int, y: int, band: int): JInt
    reads r.data
    requires IsFloatRaster(r) && r.Contains(x, y, band)
  {
    r.Sample(x, y, band)
  }

  /** ByteArrayUtils.setFloat(pixel, data, calculateByteOffset(x, y, band)),
      the store behind every setter: only the four-byte slot of (x, y, band)
      changes. */
  method SetPixelFloat(r: Raster<JInt>, x: int, y: int, band: int, bits: JInt)
    requires IsFloatRaster(r) && r.Contains(x, y, band)
    modifies r.data
    ensures IsFloatRaster(r) && Stored(r, x, y, band, bits)
    ensures GetPixelFloatBits(r, x, y, band) == bits
  {
    r.SetSample(x, y, band, bits);
  }

  /** bytesPerPixel(): the slot width of every sample. */
  function BytesPerPixel(r: Raster<JInt>): (n: nat)
    reads r.data
    requires IsFloatRaster(r)
    ensures n == 4 && n == r.codec.width
  {
    r.BytesPerPixel()
  }
}
