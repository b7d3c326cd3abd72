/**
 * A raster tile: one byte buffer holding the header and the payload, the
 * shape fixed at construction, the samples overwritten in place.
 *
 * `Raster<T>` carries the state the MrGeoRaster base class keeps for every
 * storage variant (width, height, bands, the data array and the payload
 * offset) together with what a variant contributes: its storage tag, its
 * bytesPerPixel and its sample codec. The variants differ in nothing else, so
 * MrGeoShortRaster, MrGeoDoubleRaster and MrGeoFloatRaster are this class at
 * T = short, long (the bits of a double) and int (the bits of a float).
 */
module Tile {
  import opened JavaInt
  import opened ByteCodec
  import opened RasterLayout
  import opened RasterSize

  /** Why createEmptyRaster did not return a raster. */
  datatype RasterError =
    | RasterTooLarge(width: int, height: int, bands: int,    // MrGeoRasterException
                     bytesPerPixel: nat, headerLen: nat, total: int)
    | NegativeArraySize(requested: int)                      // NegativeArraySizeException
    | HeaderDoesNotFit(length: nat)                          // the header write runs past the end

  datatype Created<!T(!new)> = Created(raster: Raster<T>) | Failed(error: RasterError)

  class Raster<T(!new)> {
    const width: JInt
    const height: JInt
    const bands: JInt
    const tag: StorageTag
    const bytesPerPixel: nat
    const codec: Codec<T>
    const header: HeaderFormat
    const data: array<JByte>
    const dataOffset: nat

    /** The buffer holds exactly the header and one slot per sample, fits in
        an int, and its first HEADER_LEN bytes are the header of this shape. */
    ghost predicate Valid()
      reads data
    {
      && Lawful(codec) && bytesPerPixel == codec.width
      && LawfulHeader(header) && dataOffset == header.len
      && data.Length == TotalBytes(width, height, bands, bytesPerPixel, dataOffset)
      && data.Length <= INT_MAX
      && dataOffset <= data.Length
      && data[..dataOffset] == header.write(HeaderFields(width, height, bands, tag))
    }

    constructor (width: JInt, height: JInt, bands: JInt, tag: StorageTag, bytesPerPixel: nat,
                 codec: Codec<T>, header: HeaderFormat, data: array<JByte>, dataOffset: nat)
      ensures this.width == width && this.height == height && this.bands == bands
      ensures this.tag == tag && this.bytesPerPixel == bytesPerPixel && this.codec == codec
      ensures this.header == header && this.data == data && this.dataOffset == dataOffset
    {
      this.width, this.height, this.bands := width, height, bands;
      this.tag, this.bytesPerPixel, this.codec := tag, bytesPerPixel, codec;
      this.header, this.data, this.dataOffset := header, data, dataOffset;
    }

    predicate Contains(x: int, y: int, band: int) {
      InRange(width, height, bands, x, y, band)
    }

    /** calculateByteOffset(x, y, band): the slot of an in-range sample lies
        in the payload. */
    function Offset(x: int, y: int, band: int): (o: int)
      requires Contains(x, y, band)
      ensures dataOffset <= o
      ensures o + bytesPerPixel <= TotalBytes(width, height, bands, bytesPerPixel, dataOffset)
    {
      SlotOffset(dataOffset, width, height, bands, bytesPerPixel, x, y, band)
    }

    function BytesPerPixel(): nat {
      bytesPerPixel
    }

    /** The sample stored in the slot of (x, y, band). */
    function Sample(x: int, y: int, band: int): T
      reads data
      requires Valid() && Contains(x, y, band)
    {
      Get(codec, data, Offset(x, y, band))
    }

    /** Encodes `v` into the slot of (x, y, band). */
    method SetSample(x: int, y: int, band: int, v: T)
      requires Valid() && Contains(x, y, band)
      modifies data
      ensures Stored(this, x, y, band, v)
    {
      var off := Offset(x, y, band);
      ghost var before := data[..];
      Put(codec, v, data, off);
      OverwriteKeepsOthers(before, off, codec.encode(v), 0, dataOffset);
      assert data[..dataOffset] == before[..dataOffset];
      forall x', y', b' | Contains(x', y', b') && (x', y', b') != (x, y, band)
        ensures Sample(x', y', b') == old(Sample(x', y', b'))
      {
        OtherSlotKept(codec, before, dataOffset, width, height, bands, x, y, band, v, x', y', b');
      }
    }
  }

  /** In a valid tile, calculateByteOffset evaluated in Java `int`
      arithmetic gives the exact offset of every in-range sample. */
  lemma OffsetIn32Bits<T(!new)>(r: Raster<T>, x: int, y: int, band: int)
    requires r.Valid() && r.Contains(x, y, band)
    ensures r.Offset(x, y, band) == IntByteOffset(r.dataOffset, r.width, r.bands, r.bytesPerPixel, x, y, band)
  {
    IntByteOffsetExact(r.dataOffset, r.width, r.height, r.bands, r.bytesPerPixel, x, y, band);
  }

  /** Writing the encoding of `v` into one slot leaves the bytes of every
      other slot as they were. */
  lemma OtherSlotKept<T(!new)>(c: Codec<T>, s: seq<JByte>, headerLen: nat, width: int, height: int,
                               bands: int, x: int, y: int, band: int, v: T, x': int, y': int, b': int)
    requires Lawful(c) && |s| == TotalBytes(width, height, bands, c.width, headerLen)
    requires InRange(width, height, bands, x, y, band) && InRange(width, height, bands, x', y', b')
    requires (x', y', b') != (x, y, band)
    ensures var off := SlotOffset(headerLen, width, height, bands, c.width, x, y, band);
            var o := SlotOffset(headerLen, width, height, bands, c.width, x', y', b');
            Overwrite(s, off, c.encode(v))[o..o + c.width] == s[o..o + c.width]
  {
    var off := SlotOffset(headerLen, width, height, bands, c.width, x, y, band);
    var o := SlotOffset(headerLen, width, height, bands, c.width, x', y', b');
    SlotsDisjoint(headerLen, width, height, bands, c.width, x', y', b', x, y, band);
    OverwriteKeepsOthers(s, off, c.encode(v), o, c.width);
  }

  /** In a buffer whose payload is zero, every in-range slot decodes to the
      codec's zero. */
  lemma ZeroSlot<T(!new)>(c: Codec<T>, s: seq<JByte>, headerLen: nat, width: int, height: int,
                          bands: int, x: int, y: int, band: int)
    requires Lawful(c) && |s| == TotalBytes(width, height, bands, c.width, headerLen)
    requires forall i :: headerLen <= i < |s| ==> s[i] == 0
    requires InRange(width, height, bands, x, y, band)
    ensures var o := SlotOffset(headerLen, width, height, bands, c.width, x, y, band);
            c.decode(s[o..o + c.width]) == c.zero
  {
    var o := SlotOffset(headerLen, width, height, bands, c.width, x, y, band);
    assert s[o..o + c.width] == Zeros(c.width);
    DecodeZeros(c);
  }

  /** What storing `v` into the slot of (x, y, band) leaves behind: that slot
      holds the encoding of `v` and reads back as `v`, every other byte of the
      buffer (the header included) is as before, and so is every other sample. */
  twostate predicate Stored<T(!new)>(r: Raster<T>, x: int, y: int, band: int, v: T)
    reads r.data
    requires old(r.Valid()) && r.Contains(x, y, band)
  {
    && r.Valid()
    && r.data[..] == Overwrite(old(r.data[..]), r.Offset(x, y, band), r.codec.encode(v))
    && r.Sample(x, y, band) == v
    && forall x', y', b' :: r.Contains(x', y', b') && (x', y', b') != (x, y, band) ==>
         r.Sample(x', y', b') == old(r.Sample(x', y', b'))
  }

  /** What createEmptyRaster promises of a raster it returns: the requested
      shape and storage, a buffer of the exact size whose header decodes to
      that shape and whose payload is zero, so that every sample reads as the
      codec's zero. */
  ghost predicate IsEmptyRaster<T(!new)>(r: Raster<T>, width: JInt, height: JInt, bands: JInt,
                                        tag: StorageTag, codec: Codec<T>, header: HeaderFormat)
    reads r.data
  {
    && r.Valid()
    && r.width == width && r.height == height && r.bands == bands && r.tag == tag
    && r.bytesPerPixel == codec.width && r.codec == codec
    && r.header == header && r.dataOffset == header.len
    && r.data.Length == TotalBytes(width, height, bands, codec.width, header.len)
    && header.read(r.data[..header.len]) == HeaderFields(width, height, bands, tag)
    && (forall i :: header.len <= i < r.data.Length ==> r.data[i] == 0)
    && (forall x, y, band :: r.Contains(x, y, band) ==> r.Sample(x, y, band) == codec.zero)
  }

  /** The error a failed sizing decision is reported as. */
  function SizingError(s: Sizing, width: int, height: int, bands: int, bpp: nat, headerLen: nat): RasterError
    requires !s.Allocate?
  {
    match s
    case TooLarge(total) => RasterTooLarge(width, height, bands, bpp, headerLen, total)
    case NegativeSize(n) => NegativeArraySize(n)
    case HeaderOverrun(n) => HeaderDoesNotFit(n)
  }

  /** createEmptyRaster for one storage type: decide the size (before any
      allocation), then allocate and fill in the tile. */
  method CreateEmpty<T(!new)>(width: JInt, height: JInt, bands: JInt, tag: StorageTag,
                              codec: Codec<T>, header: HeaderFormat)
    returns (res: Created<T>)
    requires Lawful(codec) && LawfulHeader(header)
    ensures var s := CheckedSizing(width, height, bands, codec.width, header.len);
            && (res.Created? <==> s.Allocate?)
            && (res.Failed? ==> res.error == SizingError(s, width, height, bands, codec.width, header.len))
    ensures res.Created? ==>
              && fresh(res.raster) && fresh(res.raster.data)
              && IsEmptyRaster(res.raster, width, height, bands, tag, codec, header)
  {
    var s := CheckedSizing(width, height, bands, codec.width, header.len);
    if !s.Allocate? {
      return Failed(SizingError(s, width, height, bands, codec.width, header.len));
    }
    CheckedSizingSound(width, height, bands, codec.width, header.len);
    var r := NewTile(width, height, bands, tag, codec, header, s.size);
    res := Created(r);
  }

  /** Allocates a zero-filled buffer of the total size, writes the header
      into its first HEADER_LEN bytes and wraps it in a raster. */
  method NewTile<T(!new)>(width: JInt, height: JInt, bands: JInt, tag: StorageTag,
                          codec: Codec<T>, header: HeaderFormat, size: nat)
    returns (r: Raster<T>)
    requires Lawful(codec) && LawfulHeader(header)
    requires size == TotalBytes(width, height, bands, codec.width, header.len)
    requires header.len <= size <= INT_MAX
    ensures fresh(r) && fresh(r.data)
    ensures IsEmptyRaster(r, width, height, bands, tag, codec, header)
  {
    var fields := HeaderFields(width, height, bands, tag);
    var bytes := header.write(fields);
    var data := new JByte[size](_ => 0);
    assert data[..] == Zeros(size);
    WriteBytes(bytes, data, 0);
    OverwriteZeros(size, bytes);
    assert data[..header.len] == data[..][..header.len] == bytes;
    r := new Raster(width, height, bands, tag, codec.width, codec, header, data, header.len);
    assert r.Valid();
    forall x, y, band | r.Contains(x, y, band) ensures r.Sample(x, y, band) == codec.zero {
      ZeroSlot(codec, data[..], header.len, width, height, bands, x, y, band);
    }
  }
}
