# MrGeo raster tiles: storage variants, sizing and slot locality

MrGeo stores a raster tile as one `byte[]`. The buffer holds a fixed-length header, then a payload of samples laid out band-interleaved by pixel. The sample of `(x, y, band)` is `bytesPerPixel` bytes at

    HEADER_LEN + ((y * width + x) * bands + band) * bytesPerPixel

This project models three storage variants of that tile:

- `MrGeoShortRaster`: 2-byte signed shorts;
- `MrGeoDoubleRaster`: 8-byte doubles;
- `MrGeoFloatRaster`: 4-byte floats.

For each variant it models:

- the `createEmptyRaster` factory: the size arithmetic, the too-large check, the zero-filled allocation and the header;
- the in-place setters, and the claim that each one changes exactly one slot;
- `bytesPerPixel`.

For the short raster it also models:

- the integer getters (`getPixelByte`, `getPixelShort`, `getPixeUShort`, `getPixelInt`);
- the integer setters (`setPixel(byte | short | int)`), with Java's exact narrowing and widening rules.

Modules, in dependency order:

- `JavaInt`: Java's `byte`/`short`/`int`/`long` as integer subset types. A narrowing conversion is two's-complement wrap-around (`Wrap`), characterised by its range and its congruence. The modelled rules are sections 5.1.2 and 5.1.3 of the Java Language Specification.
- `ByteCodec`: the per-width sample codec of `ByteArrayUtils`, stated abstractly. It has a fixed width, `decode(encode(v)) == v`, and zero stored as zero bytes. Slot writes go byte by byte into an `array`. A big-endian `short` codec is included to show the laws can be met, and a big-endian `int` encoding is used by the example header.
- `RasterLayout`: the header format (a length, a writer and a reader that undoes it), an example header of 13 bytes that meets those laws, `calculateByteOffset`, and the layout facts. Distinct samples have distinct positions, every slot lies inside the payload, different slots are disjoint, and the offset computed in 32-bit `int` arithmetic is exact.
- `RasterSize`: the size decision of each factory, modelled once as written and once as intended (`CheckedSizing`), with the lemmas relating them.
- `Tile`: the tile as a class `Raster<T>`. Its fields are the ones the `MrGeoRaster` base class keeps, plus the variant's storage tag, slot width and codec. It owns the `data` array. `SetSample` overwrites one slot in place. `CreateEmpty` is the shared factory.
- `ShortRaster`, `DoubleRaster`, `FloatRaster`: the three variants, each a `Raster<T>` at its own sample type.
  - Double samples are the 64 bits of the IEEE 754 value, as a Java `long`.
  - Float samples are the 32 bits, as a Java `int`.

Collaborators that are not shown are parameters:

- `ByteArrayUtils`: the codec, constrained by `ByteCodec.Lawful`.
- `MrGeoRaster.writeHeader` and `HEADER_LEN`: the header format, constrained by `RasterLayout.LawfulHeader`.

## Model

All paths are under `mrgeo-core/src/main/java/org/mrgeo/data/raster/`.

| member | source | states |
|---|---|---|
| JavaInt.Wrap | mrgeo-core/src/main/java/org/mrgeo/data/raster/MrGeoShortRaster.java:86 | a narrowing conversion yields a value in the signed range of the target width that is congruent to its argument modulo 2^bits |
| JavaInt.ToShort | mrgeo-core/src/main/java/org/mrgeo/data/raster/MrGeoShortRaster.java:86 | `(short) x` is a short congruent to x modulo 2^16 |
| JavaInt.ToByte | mrgeo-core/src/main/java/org/mrgeo/data/raster/MrGeoShortRaster.java:37 | `(byte) x` is a byte congruent to x modulo 2^8 |
| JavaInt.ToInt | mrgeo-core/src/main/java/org/mrgeo/data/raster/MrGeoFloatRaster.java:17 | the result of `int` arithmetic is an int congruent to the exact result modulo 2^32 |
| JavaInt.ToLong | mrgeo-core/src/main/java/org/mrgeo/data/raster/MrGeoShortRaster.java:20 | the result of `long` arithmetic is a long congruent to the exact result modulo 2^64 |
| JavaInt.WrapUnique | mrgeo-core/src/main/java/org/mrgeo/data/raster/MrGeoShortRaster.java:86 | only one value is in range and congruent, so range plus congruence determine every narrowing conversion |
| JavaInt.ToShortExact | mrgeo-core/src/main/java/org/mrgeo/data/raster/MrGeoShortRaster.java:84-87 | `(short) x == x` exactly when x is in [-2^15, 2^15) |
| JavaInt.ToByteExact | mrgeo-core/src/main/java/org/mrgeo/data/raster/MrGeoShortRaster.java:35-38 | `(byte) x == x` exactly when x is in [-2^7, 2^7) |
| JavaInt.ToIntExact | mrgeo-core/src/main/java/org/mrgeo/data/raster/MrGeoFloatRaster.java:17 | an int computation gives the exact result exactly when that result fits in an int |
| JavaInt.ToLongExact | mrgeo-core/src/main/java/org/mrgeo/data/raster/MrGeoShortRaster.java:20 | a long computation gives the exact result exactly when that result fits in a long |
| JavaInt.WrapAdd | mrgeo-core/src/main/java/org/mrgeo/data/raster/MrGeoShortRaster.java:20 | wrapping after each addition gives the same result as wrapping the exact sum once |
| JavaInt.WrapMul | mrgeo-core/src/main/java/org/mrgeo/data/raster/MrGeoShortRaster.java:20 | wrapping after each multiplication gives the same result as wrapping the exact product once |
| JavaInt.ByteSurvivesShort | mrgeo-core/src/main/java/org/mrgeo/data/raster/MrGeoShortRaster.java:72-75 | `(short)` of a byte sign-extends and keeps its value, and `(byte)` of that short gives the byte back |
| JavaInt.ToByteOfToShort | mrgeo-core/src/main/java/org/mrgeo/data/raster/MrGeoShortRaster.java:84-87 | `(byte)(short) v == (byte) v`: narrowing to short keeps the low 8 bits |
| ByteCodec.Zeros | mrgeo-core/src/main/java/org/mrgeo/data/raster/MrGeoShortRaster.java:27 | a fresh `byte[n]` holds n zero bytes |
| ByteCodec.DecodeZeros | mrgeo-core/src/main/java/org/mrgeo/data/raster/MrGeoShortRaster.java:27 | a zero-filled slot decodes to the codec's zero sample |
| ByteCodec.Overwrite | mrgeo-core/src/main/java/org/mrgeo/data/raster/MrGeoShortRaster.java:80 | a slot write puts the encoded bytes at the offset, keeps the length, and leaves every other byte unchanged |
| ByteCodec.OverwriteKeepsOthers | mrgeo-core/src/main/java/org/mrgeo/data/raster/MrGeoShortRaster.java:72-99 | a range disjoint from the written bytes keeps its contents |
| ByteCodec.OverwriteZeros | mrgeo-core/src/main/java/org/mrgeo/data/raster/MrGeoShortRaster.java:27-29 | writing the header into a zero-filled buffer leaves the header followed by zeros |
| ByteCodec.WriteBytes | mrgeo-core/src/main/java/org/mrgeo/data/raster/MrGeoShortRaster.java:29 | the byte-by-byte copy makes the array equal to the old contents overwritten at the offset |
| ByteCodec.Put | mrgeo-core/src/main/java/org/mrgeo/data/raster/MrGeoShortRaster.java:80 | `setShort(v, data, off)` overwrites exactly `width` bytes at `off`, and `getShort(data, off)` then returns v |
| ByteCodec.ShortBigEndianRoundTrip | mrgeo-core/src/main/java/org/mrgeo/data/raster/MrGeoShortRaster.java:43 | decoding the big-endian bytes of a short gives the short back |
| ByteCodec.ShortBigEndian | mrgeo-core/src/main/java/org/mrgeo/data/raster/MrGeoShortRaster.java:43 | a two-byte codec satisfies all the codec laws |
| ByteCodec.IntBigEndianRoundTrip | mrgeo-core/src/main/java/org/mrgeo/data/raster/MrGeoShortRaster.java:29 | decoding the four big-endian bytes of an int gives the int back, so an int header field can be read back |
| RasterLayout.CellIndexBounds | mrgeo-core/src/main/java/org/mrgeo/data/raster/MrGeoShortRaster.java:37 | every in-range (x, y, band) has a cell index in [0, width·height·bands) |
| RasterLayout.CellIndexInjective | mrgeo-core/src/main/java/org/mrgeo/data/raster/MrGeoShortRaster.java:37 | two in-range samples have the same cell index exactly when they are the same sample |
| RasterLayout.SlotInBounds | mrgeo-core/src/main/java/org/mrgeo/data/raster/MrGeoShortRaster.java:37 | the slot of every in-range sample lies between HEADER_LEN and the total buffer size |
| RasterLayout.SlotOffset | mrgeo-core/src/main/java/org/mrgeo/data/raster/MrGeoShortRaster.java:37 | `calculateByteOffset` of an in-range sample is a payload offset with room for one slot |
| RasterLayout.SlotsDisjoint | mrgeo-core/src/main/java/org/mrgeo/data/raster/MrGeoShortRaster.java:37 | the slots of two different in-range samples do not overlap |
| RasterLayout.ByteOffset | mrgeo-core/src/main/java/org/mrgeo/data/raster/MrGeoShortRaster.java:37 | the exact value of `calculateByteOffset`: HEADER_LEN + ((y·width + x)·bands + band)·bytesPerPixel (a definition; its properties are the SlotInBounds, SlotsDisjoint and CellIndex rows) |
| RasterLayout.IntByteOffset | mrgeo-core/src/main/java/org/mrgeo/data/raster/MrGeoShortRaster.java:37 | the same offset computed in Java `int` arithmetic, wrapping after every step (a definition; IntByteOffsetExact ties it to ByteOffset) |
| RasterLayout.TotalBytes | mrgeo-core/src/main/java/org/mrgeo/data/raster/MrGeoShortRaster.java:20 | the exact buffer size width·height·bands·bytesPerPixel + HEADER_LEN, without wrap-around (a definition) |
| RasterLayout.SimpleHeader | mrgeo-core/src/main/java/org/mrgeo/data/raster/MrGeoShortRaster.java:29 | a 13-byte header (width, height and bands as big-endian ints, then a tag byte) meets every header law, so the laws can be met |
| RasterLayout.IntByteOffsetExact | mrgeo-core/src/main/java/org/mrgeo/data/raster/MrGeoShortRaster.java:37 | when the buffer fits in an int, computing the offset in 32-bit arithmetic never wraps |
| RasterSize.LongTotalAsWritten | mrgeo-core/src/main/java/org/mrgeo/data/raster/MrGeoShortRaster.java:20 | the `long` total is the exact total wrapped modulo 2^64 |
| RasterSize.IntTotalAsWritten | mrgeo-core/src/main/java/org/mrgeo/data/raster/MrGeoFloatRaster.java:17 | the `int` total is the exact total wrapped modulo 2^32 |
| RasterSize.Allocation | mrgeo-core/src/main/java/org/mrgeo/data/raster/MrGeoShortRaster.java:27-29 | what `new byte[n]` followed by the header write does with n: negative n fails, n below HEADER_LEN fails the header write, any other n allocates n bytes (a definition) |
| RasterSize.LongSizingAsWritten | mrgeo-core/src/main/java/org/mrgeo/data/raster/MrGeoShortRaster.java:20-27 | the short and double decision as written: the wrapped `long` total is refused above Integer.MAX_VALUE, otherwise cast to int and allocated (a definition; the lemmas below relate it to CheckedSizing) |
| RasterSize.IntSizingAsWritten | mrgeo-core/src/main/java/org/mrgeo/data/raster/MrGeoFloatRaster.java:17 | the float decision as written: the wrapped `int` total is allocated with no check (a definition) |
| RasterSize.CheckedSizing | mrgeo-core/src/main/java/org/mrgeo/data/raster/MrGeoShortRaster.java:20-27 | the intended decision: refuse an exact total above Integer.MAX_VALUE, otherwise allocate it (a definition; CheckedSizingSound states its properties) |
| RasterSize.CheckedSizingSound | mrgeo-core/src/main/java/org/mrgeo/data/raster/MrGeoShortRaster.java:20-27 | the intended decision rejects exactly the totals above Integer.MAX_VALUE, allocates exactly when HEADER_LEN <= total <= Integer.MAX_VALUE, allocates the exact total, and every in-range slot fits in it |
| RasterSize.LongSizingAgrees | mrgeo-core/src/main/java/org/mrgeo/data/raster/MrGeoShortRaster.java:20-27 | when Integer.MIN_VALUE <= exact total < 2^63, the as-written short and double decision equals the intended one |
| RasterSize.NegativeTotalWraps | mrgeo-core/src/main/java/org/mrgeo/data/raster/MrGeoShortRaster.java:20-27 | as written, an Integer.MIN_VALUE x 2 x 1 short raster has a negative long total whose `(int)` cast wraps to HEADER_LEN, so a header-only buffer is allocated; the intended decision reports the negative size |
| RasterSize.LongSizingExactBelow2To20 | mrgeo-core/src/main/java/org/mrgeo/data/raster/MrGeoDoubleRaster.java:20-27 | for non-negative dimensions below 2^20 the long arithmetic cannot wrap, and the decision is as intended |
| RasterSize.IntSizingAgrees | mrgeo-core/src/main/java/org/mrgeo/data/raster/MrGeoFloatRaster.java:17 | when the exact total fits in an int, the as-written float allocation equals the intended one |
| RasterSize.LongWrapsToHeader | mrgeo-core/src/main/java/org/mrgeo/data/raster/MrGeoShortRaster.java:20-27 | a total of 2^64 + HEADER_LEN becomes HEADER_LEN in a long |
| RasterSize.ShortSizeCheckBypassed | mrgeo-core/src/main/java/org/mrgeo/data/raster/MrGeoShortRaster.java:20-27 | as written, a 2^21 x 2^21 x 2^21 short raster passes the check with a HEADER_LEN-byte buffer that cannot hold its first sample; the intended check rejects it |
| RasterSize.DoubleSizeCheckBypassed | mrgeo-core/src/main/java/org/mrgeo/data/raster/MrGeoDoubleRaster.java:20-27 | as written, a 2^20 x 2^20 x 2^21 double raster passes the check with a HEADER_LEN-byte buffer; the intended check rejects it |
| RasterSize.FloatSizeWraps | mrgeo-core/src/main/java/org/mrgeo/data/raster/MrGeoFloatRaster.java:17 | as written, a 65536 x 65536 x 1 float raster gets a HEADER_LEN-byte buffer; the intended check rejects it |
| RasterSize.FloatSizeGoesNegative | mrgeo-core/src/main/java/org/mrgeo/data/raster/MrGeoFloatRaster.java:17 | as written, a 23171 x 23171 x 1 float raster wraps to a negative array size |
| RasterSize.HugeDoubleRejected | mrgeo-core/src/main/java/org/mrgeo/data/raster/MrGeoDoubleRaster.java:21-26 | a 100000 x 100000 x 4 double raster is refused, as written and as intended, reporting its 3.2·10^11 + HEADER_LEN byte total |
| Tile.Raster.constructor | mrgeo-core/src/main/java/org/mrgeo/data/raster/MrGeoShortRaster.java:13-16 | the constructor stores the shape, the storage type, the data array and the payload offset |
| Tile.Raster.Offset | mrgeo-core/src/main/java/org/mrgeo/data/raster/MrGeoShortRaster.java:37 | the offset of an in-range sample starts in the payload and has room for a full slot (OffsetIn32Bits ties it to the `int` computation) |
| Tile.Raster.Sample | mrgeo-core/src/main/java/org/mrgeo/data/raster/MrGeoShortRaster.java:43 | the sample the codec decodes from the slot of (x, y, band) (a definition; SetSample and CreateEmpty state what it returns) |
| Tile.OffsetIn32Bits | mrgeo-core/src/main/java/org/mrgeo/data/raster/MrGeoShortRaster.java:37 | in a valid tile, `calculateByteOffset` computed in `int` arithmetic gives the exact offset of every in-range sample |
| Tile.Raster.SetSample | mrgeo-core/src/main/java/org/mrgeo/data/raster/MrGeoShortRaster.java:78-81 | storing v overwrites exactly the slot of (x, y, band); that slot reads back v; every other byte, header included, and every other sample are unchanged; the tile stays valid |
| Tile.OtherSlotKept | mrgeo-core/src/main/java/org/mrgeo/data/raster/MrGeoShortRaster.java:72-99 | writing one slot leaves the bytes of every other in-range slot unchanged |
| Tile.ZeroSlot | mrgeo-core/src/main/java/org/mrgeo/data/raster/MrGeoShortRaster.java:27 | in a zero-filled payload every in-range sample reads as zero |
| Tile.CreateEmpty | mrgeo-core/src/main/java/org/mrgeo/data/raster/MrGeoShortRaster.java:18-32 | the factory succeeds exactly when the size decision allocates, and otherwise reports the matching error; a new tile has the requested shape, exactly the total size, a header that reads back as (width, height, bands, tag), payload offset HEADER_LEN, a zero payload, and zero in every sample |
| Tile.NewTile | mrgeo-core/src/main/java/org/mrgeo/data/raster/MrGeoShortRaster.java:27-31 | allocation, header write and construction give a fresh, valid, empty tile |
| ShortRaster.CreateEmptyRaster | mrgeo-core/src/main/java/org/mrgeo/data/raster/MrGeoShortRaster.java:18-32 | as Tile.CreateEmpty, with 2-byte slots and the TYPE_SHORT tag; with a codec whose zero is 0, getPixelShort of every in-range sample of a new raster is 0 |
| ShortRaster.GetPixelShort | mrgeo-core/src/main/java/org/mrgeo/data/raster/MrGeoShortRaster.java:40-44 | the short stored in the slot of (x, y, band) (a definition; the setters and the factory state what it returns) |
| ShortRaster.GetPixelByte | mrgeo-core/src/main/java/org/mrgeo/data/raster/MrGeoShortRaster.java:35-38 | the result agrees with the stored short in its low 8 bits, and equals it exactly when the short fits in a byte |
| ShortRaster.GetPixeUShort | mrgeo-core/src/main/java/org/mrgeo/data/raster/MrGeoShortRaster.java:46-50 | returns exactly the value of getPixelShort, with no zero-extension |
| ShortRaster.GetPixelInt | mrgeo-core/src/main/java/org/mrgeo/data/raster/MrGeoShortRaster.java:53-56 | returns the stored short sign-extended, so its value is unchanged |
| ShortRaster.SetPixelShort | mrgeo-core/src/main/java/org/mrgeo/data/raster/MrGeoShortRaster.java:78-81 | after setPixel(short v), getPixelShort returns v; only the 2-byte slot changes |
| ShortRaster.SetPixelByte | mrgeo-core/src/main/java/org/mrgeo/data/raster/MrGeoShortRaster.java:72-75 | after setPixel(byte v), getPixelShort, getPixelByte and getPixelInt all return v; only the slot changes |
| ShortRaster.SetPixelInt | mrgeo-core/src/main/java/org/mrgeo/data/raster/MrGeoShortRaster.java:84-87 | after setPixel(int v) the stored value is `(short) v`; getPixelInt gives v back exactly when v fits in a short, and otherwise a value congruent to it modulo 2^16; getPixelByte gives `(byte) v`; only the slot changes |
| ShortRaster.BytesPerPixel | mrgeo-core/src/main/java/org/mrgeo/data/raster/MrGeoShortRaster.java:101-105 | returns 2, the width of the raster's slots |
| ShortRaster.SlotsOfShortRaster | mrgeo-core/src/main/java/org/mrgeo/data/raster/MrGeoShortRaster.java:72-99 | each sample's 2 bytes lie inside the payload, and two different samples never share a byte |
| ShortRaster.SmallTile | mrgeo-core/src/main/java/org/mrgeo/data/raster/MrGeoShortRaster.java:18-32 | a 2 x 2 x 1 short raster with the big-endian codec and the 13-byte header is created with a 21-byte buffer and zero samples, and setPixel(int 70000) reads back as 4464 |
| DoubleRaster.CreateEmptyRaster | mrgeo-core/src/main/java/org/mrgeo/data/raster/MrGeoDoubleRaster.java:18-32 | as Tile.CreateEmpty, with 8-byte slots and the TYPE_DOUBLE tag; every sample of a new raster has all-zero bits (0.0) |
| DoubleRaster.GetPixelDoubleBits | mrgeo-core/src/main/java/org/mrgeo/data/raster/MrGeoDoubleRaster.java:64-68 | the bits of the double stored in the slot of (x, y, band), which getPixelDouble returns (a definition) |
| DoubleRaster.SetPixelDouble | mrgeo-core/src/main/java/org/mrgeo/data/raster/MrGeoDoubleRaster.java:70-99 | the store behind every setPixel overload writes only the 8-byte slot of (x, y, band), which then holds the stored bits; all other bytes and samples are unchanged |
| DoubleRaster.BytesPerPixel | mrgeo-core/src/main/java/org/mrgeo/data/raster/MrGeoDoubleRaster.java:101-105 | returns 8, the width of the raster's slots |
| FloatRaster.CreateEmptyRaster | mrgeo-core/src/main/java/org/mrgeo/data/raster/MrGeoFloatRaster.java:15-22 | as Tile.CreateEmpty, with 4-byte slots and the TYPE_FLOAT tag; every sample of a new raster has all-zero bits (0.0f); uses the corrected size decision (see Findings) |
| FloatRaster.GetPixelFloatBits | mrgeo-core/src/main/java/org/mrgeo/data/raster/MrGeoFloatRaster.java:48-52 | the bits of the float stored in the slot of (x, y, band), which getPixelFloat returns (a definition) |
| FloatRaster.SetPixelFloat | mrgeo-core/src/main/java/org/mrgeo/data/raster/MrGeoFloatRaster.java:60-89 | the store behind every setter writes only the 4-byte slot of (x, y, band), which then holds the stored bits; all other bytes and samples are unchanged |
| FloatRaster.BytesPerPixel | mrgeo-core/src/main/java/org/mrgeo/data/raster/MrGeoFloatRaster.java:91-95 | returns 4, the width of the raster's slots |

## Left out

- Floating-point values are not modelled:
  - the getters `getPixelFloat` and `getPixelDouble` of every variant;
  - every float-to-integer and integer-to-float conversion: the integer getters of the double and float rasters, and `setPixel(float | double)` of the short raster;
  - float and double samples are kept as their raw bits, and any NaN canonicalisation is not modelled.
- ShortRaster.SetPixelShort also stands for the store behind `setPixel(float | double)` of the short raster (MrGeoShortRaster.java:90-99). The float-to-short conversion is not modelled, only the store of the resulting short.
- DoubleRaster.SetPixelDouble stands for all five `setPixel` overloads of the double raster. Each overload first converts its argument to `double`; that conversion is not modelled. Only the store of the resulting bits is.
- FloatRaster.SetPixelFloat stands for the float raster's setters after their conversion to `float`. One of these is spelled `setPixe(int)` at MrGeoFloatRaster.java:73. It is a method of that name, not an override of `setPixel(int)`. The model does not claim the float raster has a `setPixel(int)` of its own.
- ByteCodec.Lawful says nothing about byte order. `ByteArrayUtils` is not part of this model, so every codec is a parameter. The only fact used about a codec is its laws.
- RasterLayout.LawfulHeader says nothing about the header's byte layout. `MrGeoRaster.writeHeader` and `HEADER_LEN` are not part of this model. The header is a parameter: a positive length no larger than an int, a writer of exactly that many bytes for every (width, height, bands, tag) of Java ints, and a reader that undoes the writer. `RasterLayout.SimpleHeader` is a 13-byte format that meets these laws; it is an example and not claimed to be the layout `writeHeader` uses. The storage-type tags are distinct values, not the `DataBuffer` constants.
- Tile.Raster.Sample and every setter require in-range coordinates. The source checks no bounds, but an out-of-range call there either throws an index exception or reads and writes a neighbouring sample. Neither outcome is modelled.
- Tile.CreateEmpty, ShortRaster.CreateEmptyRaster, DoubleRaster.CreateEmptyRaster and FloatRaster.CreateEmptyRaster decide the size with the corrected `CheckedSizing`, not with the wrapping arithmetic of the source. The as-written decisions are `RasterSize.LongSizingAsWritten` and `RasterSize.IntSizingAsWritten`, with the lemmas above. The original float factory has no too-large check at all; the corrected one reports `RasterTooLarge` wherever the exact total exceeds Integer.MAX_VALUE.
- RasterSize.LongSizingAgrees holds only for Integer.MIN_VALUE <= exact total < 2^63. Below that range the `(int)` cast of the long total wraps: width = Integer.MIN_VALUE, height = 2, bands = 1 gives a negative exact total, which the intended decision reports as `NegativeSize`, while the as-written one allocates the wrapped value (RasterSize.NegativeTotalWraps).
- Negative dimensions are not rejected by the source. The model follows the resulting `new byte[n]`:
  - a negative n ends as `NegativeArraySize`;
  - a buffer shorter than HEADER_LEN ends as `HeaderDoesNotFit`, because the header write would fail.
- The text of the `MrGeoRasterException` message and `serialVersionUID` are not modelled.

## Findings

| source | as written | input that shows it | evidently intended | confidence | as-written member | corrected member |
|---|---|---|---|---|---|---|
| mrgeo-core/src/main/java/org/mrgeo/data/raster/MrGeoShortRaster.java:20-27 | The total is computed in `long` and compared with Integer.MAX_VALUE. The `long` product of three ints and 2 can itself wrap. | width = height = bands = 2097152: 2^63·2 = 2^64, so `bytes` wraps to HEADER_LEN. The check passes, and a HEADER_LEN-byte buffer is allocated for 2^63 samples. | Reject every raster whose exact size exceeds Integer.MAX_VALUE. | not executed | RasterSize.LongSizingAsWritten, RasterSize.ShortSizeCheckBypassed | RasterSize.CheckedSizing, RasterSize.CheckedSizingSound |
| mrgeo-core/src/main/java/org/mrgeo/data/raster/MrGeoDoubleRaster.java:20-27 | Same `long` computation, with 8 bytes per pixel. | width = height = 1048576, bands = 2097152: 2^61·8 = 2^64 wraps to 0, so the check passes with a HEADER_LEN-byte buffer. | Reject every raster whose exact size exceeds Integer.MAX_VALUE. | not executed | RasterSize.LongSizingAsWritten, RasterSize.DoubleSizeCheckBypassed | RasterSize.CheckedSizing, RasterSize.CheckedSizingSound |
| mrgeo-core/src/main/java/org/mrgeo/data/raster/MrGeoFloatRaster.java:17 | The size is computed in 32-bit `int` arithmetic and allocated with no check. | 65536 x 65536 x 1: the 2^34-byte payload wraps to 0, giving a HEADER_LEN-byte buffer. 23171 x 23171 x 1: the size wraps negative. | Compute the size without wrapping and refuse it above Integer.MAX_VALUE, as the other two variants mean to. | not executed | RasterSize.IntSizingAsWritten, RasterSize.FloatSizeWraps, RasterSize.FloatSizeGoesNegative | RasterSize.CheckedSizing, RasterSize.CheckedSizingSound |
