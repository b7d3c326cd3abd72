/**
 * MrGeoShortRaster: a raster tile of Java `short` samples, two bytes each.
 *
 * The integer getters read the stored short and apply Java's primitive
 * conversions to it; the integer setters convert their argument to `short`
 * and overwrite one two-byte slot in place.
 */
module ShortRaster {
  import opened JavaInt
  import opened ByteCodec
  import opened RasterLayout
  import opened RasterSize
  import opened Tile

  /** BYTES_PER_PIXEL */
  const BYTES_PER_PIXEL: nat := 2

  /** A valid tile of this storage type. */
  ghost predicate IsShortRaster(r: Raster<JShort>)
    reads r.data
  {
    r.Valid() && r.tag == TypeShort && r.bytesPerPixel == BYTES_PER_PIXEL
  }

  /** createEmptyRaster(width, height, bands), with the 64-bit total checked
      without wrap-around (see RasterSize); a raster too large for a Java array
      is refused before any allocation. */
  method CreateEmptyRaster(width: JInt, height: JInt, bands: JInt,
                           codec: Codec<JShort>, header: HeaderFormat)
    returns (res: Created<JShort>)
    requires Lawful(codec) && codec.width == BYTES_PER_PIXEL && codec.zero == 0 && LawfulHeader(header)
    ensures var s := CheckedSizing(width, height, bands, BYTES_PER_PIXEL, header.len);
            && (res.Created? <==> s.Allocate?)
            && (res.Failed? ==> res.error == SizingError(s, width, height, bands, BYTES_PER_PIXEL, header.len))
    ensures res.Created? ==>
              && fresh(res.raster) && fresh(res.raster.data)
              && IsEmptyRaster(res.raster, width, height, bands, TypeShort, codec, header)
              && IsShortRaster(res.raster)
              && forall x, y, band :: res.raster.Contains(x, y, band) ==> GetPixelShort(res.raster, x, y, band) == 0
  {
    res := CreateEmpty(width, height, bands, TypeShort, codec, header);
  }

  /** getPixelShort: the short stored in the slot of (x, y, band). */
  function GetPixelShort(r: Raster<JShort>, x: int, y: int, band: int): JShort
    reads r.data
    requires IsShortRaster(r) && r.Contains(x, y, band)
  {
    r.Sample(x, y, band)
  }

  /** getPixelByte: (byte) of the stored short, i.e. its low 8 bits read as a
      signed byte. */
  function GetPixelByte(r: Raster<JShort>, x: int, y: int, band: int): (b: JByte)
    reads r.data
    requires IsShortRaster(r) && r.Contains(x, y, band)
    ensures (GetPixelShort(r, x, y, band) - b) % BYTE_MOD == 0
    ensures b == GetPixelShort(r, x, y, band) <==> -0x80 <= GetPixelShort(r, x, y, band) < 0x80
  {
    ToByteExact(GetPixelShort(r, x, y, band));
    ToByte(GetPixelShort(r, x, y, band))
  }

  /** getPixeUShort: despite its name, the stored short itself, with no
      zero-extension or masking; negative samples stay negative. */
  function GetPixeUShort(r: Raster<JShort>, x: int, y: int, band: int): (u: JShort)
    reads r.data
    requires IsShortRaster(r) && r.Contains(x, y, band)
    ensures u == GetPixelShort(r, x, y, band)
  {
    r.Sample(x, y, band)
  }

  /** getPixelInt: (int) of the stored short, a sign-extending widening that
      keeps the value. */
  function GetPixelInt(r: Raster<JShort>, x: int, y: int, band: int): (i: JInt)
    reads r.data
    requires IsShortRaster(r) && r.Contains(x, y, band)
    ensures i == GetPixelShort(r, x, y, band)
    ensures -0x8000 <= i < 0x8000
  {
    r.Sample(x, y, band)
  }

  /** setPixel(x, y, band, short pixel) */
  method SetPixelShort(r: Raster<JShort>, x: int, y: int, band: int, pixel: JShort)
    requires IsShortRaster(r) && r.Contains(x, y, band)
    modifies r.data
    ensures IsShortRaster(r) && Stored(r, x, y, band, pixel)
    ensures GetPixelShort(r, x, y, band) == pixel
  {
    r.SetSample(x, y, band, pixel);
  }

  /** setPixel(x, y, band, byte pixel): (short) pixel sign-extends, so every
      getter gives the byte back. */
  method SetPixelByte(r: Raster<JShort>, x: int, y: int, band: int, pixel: JByte)
    requires IsShortRaster(r) && r.Contains(x, y, band)
    modifies r.data
    ensures IsShortRaster(r) && Stored(r, x, y, band, ToShort(pixel))
    ensures GetPixelShort(r, x, y, band) == pixel
    ensures GetPixelByte(r, x, y, band) == pixel
    ensures GetPixelInt(r, x, y, band) == pixel
  {
    ByteSurvivesShort(pixel);
    r.SetSample(x, y, band, ToShort(pixel));
  }

  /** setPixel(x, y, band, int pixel): (short) pixel keeps the low 16 bits, so
      the value reads back exactly when it fits in a short and wraps around
      otherwise. */
  method SetPixelInt(r: Raster<JShort>, x: int, y: int, band: int, pixel: JInt)
    requires IsShortRaster(r) && r.Contains(x, y, band)
    modifies r.data
    ensures IsShortRaster(r) && Stored(r, x, y, band, ToShort(pixel))
    ensures GetPixelShort(r, x, y, band) == ToShort(pixel)
    ensures (pixel - GetPixelInt(r, x, y, band)) % SHORT_MOD == 0
    ensures GetPixelInt(r, x, y, band) == pixel <==> -0x8000 <= pixel < 0x8000
    ensures GetPixelByte(r, x, y, band) == ToByte(pixel)
  {
    ToShortExact(pixel);
    ToByteOfToShort(pixel);
    r.SetSample(x, y, band, ToShort(pixel));
  }

  /** bytesPerPixel(): the slot width of every sample. */
  function BytesPerPixel(r: Raster<JShort>): (n: nat)
    reads r.data
    requires IsShortRaster(r)
    ensures n == 2 && n == r.codec.width
  {
    r.BytesPerPixel()
  }

  /** A short raster's slots are disjoint two-byte ranges inside the payload,
      so two in-range samples never share a byte. */
  lemma SlotsOfShortRaster(r: Raster<JShort>, x1: int, y1: int, b1: int, x2: int, y2: int, b2: int)
    requires IsShortRaster(r) && r.Contains(x1, y1, b1) && r.Contains(x2, y2, b2)
    requires (x1, y1, b1) != (x2, y2, b2)
    ensures r.dataOffset <= r.Offset(x1, y1, b1) && r.Offset(x1, y1, b1) + 2 <= r.data.Length
    ensures r.Offset(x1, y1, b1) + 2 <= r.Offset(x2, y2, b2) || r.Offset(x2, y2, b2) + 2 <= r.Offset(x1, y1, b1)
  {
    SlotsDisjoint(r.dataOffset, r.width, r.height, r.bands, 2, x1, y1, b1, x2, y2, b2);
  }

  /** A 2 x 2 single-band tile with the big-endian short codec and the
      13-byte header: createEmptyRaster returns it zero-filled, and after
      setPixel(1, 0, 0, (int) 70000) that sample reads back as 70000 - 65536
      while its neighbour is still zero. */
  method SmallTile() returns (r: Raster<JShort>)
    ensures IsShortRaster(r) && r.width == 2 && r.height == 2 && r.bands == 1
    ensures r.data.Length == 13 + 2 * 2 * 1 * 2
    ensures GetPixelShort(r, 1, 0, 0) == 4464 && GetPixelShort(r, 0, 0, 0) == 0
  {
    var header := SimpleHeader();
    assert TotalBytes(2, 2, 1, 2, 13) == 21;
    var res := CreateEmptyRaster(2, 2, 1, ShortBigEndian(), header);
    r := res.raster;
    assert GetPixelShort(r, 0, 0, 0) == 0;
    SetPixelInt(r, 1, 0, 0, 70000);
    assert ToShort(70000) == 4464 by { WrapUnique(70000, 4464, SHORT_MOD); }
  }
}
