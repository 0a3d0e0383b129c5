# S3TC (DXT1/DXT3/DXT5) texture decompressor — a Dafny model

This project models `DxtUtil`, the decompressor in the XNB exporter. It turns
S3TC-compressed texture data into a row-major RGBA8 buffer of
`width * height * 4` bytes. S3TC is also known as BC1/BC2/BC3.

The model has these parts:

- **Entry points.** For each of DXT1, DXT3 and DXT5 there are two:
  - the `byte[]` overload wraps the bytes in a stream;
  - the `Stream` overload allocates a zeroed buffer and walks the block grid
    row by row. The grid is `(width + 3) / 4` blocks across and
    `(height + 3) / 4` blocks down.
- **Block decoders.** Each reads one block from a `BinaryReader` and paints
  its 16 texels into the buffer. A texel that falls outside the image is
  skipped.
- **Per-texel selection.** This covers:
  - the RGB565 → RGB888 endpoint expansion;
  - the 2-bit colour index into a four-colour palette, or into DXT1's
    three-colour-plus-transparent palette;
  - DXT3's explicit 4-bit alphas;
  - DXT5's interpolated 3-bit alphas.

The decoders are imperative, as in the source:

- the drivers allocate an `array<byte>` and run the nested grid loops;
- the block decoders advance the reader (a class with a position field) and
  write four bytes per texel in place, inside 4×4 loops;
- DXT3 keeps its running alpha-nibble counter.

Each method is proved against a functional specification:

- `Image.ImageSpec` says what every byte of a decoded image is: texel
  `4 * (y % 4) + x % 4` of block `(x / 4, y / 4)`, where blocks are taken in
  stream order.
- Every `Stream` driver ensures two things:
  - it succeeds exactly when the stream holds every block of the grid;
  - on success, it returns a fresh buffer equal to `ImageSpec` of the bytes
    from the reader's starting position, and the reader has advanced by
    exactly `blocks * 8` or `blocks * 16` bytes.

The per-texel functions come with lemmas:

- palette entries lie between the endpoints, so the `(byte)` casts never wrap;
- the DXT1 alpha rule;
- the nibble rule of DXT3;
- the levels and monotonicity of DXT5's alpha ramp;
- the expansion bounds of RGB565.

`ConvertRgb565ToRgb888` does not always give the nearest integer to the exact
scaling. For example, the 5-bit value 20 expands to 164, while
`20 * 255 / 31` is about 164.52. It always gives one of the two integers next
to the exact value, and that is what `Rgb565.Expand5` and `Rgb565.Expand6`
state.

Modules:
- `Bits`: fixed-width unsigned integers, bit fields, little-endian packing.
- `Rgb565`: endpoint expansion.
- `Texels`: palettes, indices, alpha rules.
- `Layout`: buffer and grid geometry.
- `Image`: the decoded-image specification and the proof steps of the grid loop.
- `Reader`: the `Result` type and `BinaryReader` over a byte sequence.
- `DxtUtil`: the decoder.

## Model

| member | source | states |
|---|---|---|
| Rgb565.Expand5 | DxtUtils.cs:351-352 | the 5-bit scaling `(n / 32 + n) / 32` with `n = 255v + 16` gives a byte `c` with `31c - 31 < 255v < 31c + 31`: the exact value `255v / 31`, rounded down or up |
| Rgb565.Expand6 | DxtUtils.cs:353-354 | the 6-bit scaling with `+32`, `/64` gives a byte `c` with `63c - 63 < 255v < 63c + 63` |
| Rgb565.RedField | DxtUtils.cs:351 | `color >> 11` is a 5-bit value |
| Rgb565.GreenField | DxtUtils.cs:353 | `(color & 0x7E0) >> 5` is a 6-bit value |
| Rgb565.BlueField | DxtUtils.cs:355 | `color & 0x1F` is a 5-bit value |
| Rgb565.ConvertRgb565ToRgb888 | DxtUtils.cs:349-357 | each output channel is a byte that is the rounded-down or rounded-up exact scaling of its field; no cast wraps |
| Rgb565.ConvertBlackAndWhite | DxtUtils.cs:349-357 | 0x0000 expands to (0,0,0) and 0xFFFF to (255,255,255) |
| Rgb565.FieldsOfRgb565 | DxtUtils.cs:351-355 | the three fields extract red from bits 11-15, green from bits 5-10 and blue from bits 0-4 of any RGB565 word |
| Rgb565.ExpandStrictlyIncreasing | DxtUtils.cs:351-356 | both expansions are strictly increasing in the field value |
| Rgb565.ConvertMonotone | DxtUtils.cs:349-357 | a larger field gives a strictly larger channel, an equal field an equal channel, and the other channels do not move |
| Texels.Blend | DxtUtils.cs:59-67 | defines one interpolated channel: `(w0*e0 + w1*e1) / (w0 + w1)` with truncating division, typed as a byte. The palettes use weights (2,1) and (1,2) for the four-colour entries, (1,1) for DXT1's three-colour midpoint, and (6-k, k-1) or (8-k, k-1) for DXT5 alpha |
| Texels.AverageBetween | DxtUtils.cs:59-67 | the truncated weighted average of two bytes lies between them; this is what makes `Blend`'s byte result type, and the source's `(byte)` casts, safe |
| Texels.BlendBetween | DxtUtils.cs:59-67 | a truncating weighted average `(w0*e0 + w1*e1) / (w0+w1)` lies between the two endpoints, so the `(byte)` cast never wraps |
| Texels.BlendRgb | DxtUtils.cs:59-67 | defines a colour interpolation as `Blend` applied to red, green and blue with the same weights |
| Texels.BlendRgbBetween | DxtUtils.cs:59-67 | the channel-wise average of two colours lies in the box spanned by them |
| Texels.ColorIndex | DxtUtils.cs:44 | `(word >> 2t) & 3` is below 4 |
| Texels.AlphaIndex | DxtUtils.cs:299 | `(field >> 3t) & 7` is below 8 |
| Texels.ColorIndexIsBitField | DxtUtils.cs:44 | the colour index of texel t is the 2-bit field at bit 2t |
| Texels.AlphaIndexIsBitField | DxtUtils.cs:299 | the alpha index of texel t is the 3-bit field at bit 3t |
| Texels.ColorIndexOfPacked | DxtUtils.cs:44 | round trip: 16 2-bit indices packed low-first into a 32-bit word come back out of `ColorIndex` |
| Texels.AlphaIndexOfPacked | DxtUtils.cs:299 | round trip: 16 3-bit indices packed low-first into a 48-bit field come back out of `AlphaIndex` |
| Texels.FourColor | DxtUtils.cs:214-236 | defines the four-colour palette: index 0 is e0, index 1 is e1, index 2 is `(2*e0 + e1) / 3` and index 3 is `(e0 + 2*e1) / 3`, channel by channel. DXT1 uses it when color0 > color1 (DxtUtils.cs:45-69), and the DXT3 and DXT5 colour sub-blocks always use it (DxtUtils.cs:311-333) |
| Texels.FourColorPalette | DxtUtils.cs:214-236 | in the four-colour palette, index 0 is color0, index 1 is color1, and every entry lies between them |
| Texels.Bc1Texel | DxtUtils.cs:43-97 | defines a DXT1 texel from the raw endpoints and its 2-bit index. When color0 > color1 it is the `FourColor` entry with alpha 255. Otherwise indices 0 and 1 are the endpoints, index 2 is `(e0 + e1) / 2` per channel (all with alpha 255), and index 3 is (0,0,0,0) |
| Texels.Bc1TexelPalette | DxtUtils.cs:43-97 | a DXT1 texel has alpha 0 exactly when color0 <= color1 and the index is 3; that texel is (0,0,0,0); every other texel is opaque with a colour between the expanded endpoints |
| Texels.Bc1IndexZero | DxtUtils.cs:45-80 | in both DXT1 modes, index 0 is color0 and opaque |
| Texels.WhiteBc1Block | DxtUtils.cs:29-111 | the block FF FF 00 00 00 00 00 00 decodes to 16 opaque white texels |
| Texels.TransparentBc1Block | DxtUtils.cs:71-96 | every 8-byte block whose color0 (u16 at byte 0) does not exceed its color1 (u16 at byte 2) and whose index word (u32 at byte 4) is all ones decodes to 16 transparent black texels (0,0,0,0) |
| Texels.Bc1BlockTexel | DxtUtils.cs:31-44 | defines texel t of an 8-byte DXT1 block: `Bc1Texel` of color0 (little-endian u16 at byte 0) and color1 (at byte 2), with the 2-bit index t of the u32 at byte 4 |
| Texels.SubBlockColor | DxtUtils.cs:146-150 | defines the colour of texel t of the 8-byte colour sub-block at offset o: the `FourColor` entry chosen by index t of the u32 at o + 4, whose endpoints are the expanded u16 values at o and o + 2 |
| Texels.Bc2BlockTexel | DxtUtils.cs:136-236 | defines texel t of a 16-byte DXT3 block: the sub-block colour at offset 8, with `Bc2Alpha` of bytes 0-7 |
| Texels.Bc3BlockTexel | DxtUtils.cs:275-333 | defines texel t of a 16-byte DXT5 block: the sub-block colour at offset 8, with `Bc3Alpha` of bytes 0 and 1 at 3-bit index t of the 48-bit field at byte 2 |
| Texels.AlphaWordNibble | DxtUtils.cs:161-211 | nibble k of the eight little-endian alpha bytes is the low nibble of byte k/2 for even k and the high nibble for odd k |
| Texels.ByteNibble | DxtUtils.cs:164-167 | the low nibble of a byte is `b & 0xF`, the high nibble `(b & 0xF0) >> 4` |
| Texels.Bc2Alpha | DxtUtils.cs:161-211 | defines DXT3 alpha for texel k: for even k, the low nibble of alpha byte k/2, as `(n & 0xF)` OR `(n & 0xF) << 4`; for odd k, the high nibble, as `(n & 0xF0)` OR `(n & 0xF0) >> 4` |
| Texels.Bc2AlphaNibble | DxtUtils.cs:151-213 | the DXT3 alpha of texel k is `17 * nibble k` of the alpha word, with equal high and low halves |
| Texels.Bc3Alpha | DxtUtils.cs:300-310 | defines DXT5 alpha for a 3-bit index k. Index 0 is a0 and index 1 is a1. When a0 <= a1: index 6 is 0, index 7 is 255, and indices 2-5 are `((6-k)*a0 + (k-1)*a1) / 5`. Otherwise indices 2-7 are `((8-k)*a0 + (k-1)*a1) / 7` |
| Texels.Bc3AlphaLevels | DxtUtils.cs:300-310 | index 0 gives a0 and index 1 gives a1; when a0 <= a1, index 6 gives 0 and index 7 gives 255; every other level lies between a0 and a1 |
| Texels.BlendStep | DxtUtils.cs:308-309 | moving one unit of weight from a0 to a1 moves the level towards a1 |
| Texels.Ramp8Adjacent | DxtUtils.cs:309 | with a0 > a1, adjacent levels in palette order (0, 2..7, 1) do not increase |
| Texels.Ramp6Adjacent | DxtUtils.cs:308 | with a0 <= a1, adjacent levels in palette order (0, 2..5, 1) do not decrease |
| Texels.Bc3EightLevelsDescend | DxtUtils.cs:309 | with a0 > a1, the eight levels fall monotonically from a0 to a1 |
| Texels.Bc3SixLevelsAscend | DxtUtils.cs:304-309 | with a0 <= a1, the six interpolated levels rise monotonically from a0 to a1; the bounds by the levels of indices 6 and 7 are only the byte range 0..255 |
| Bits.U16At | DxtUtils.cs:31 | defines what `ReadUInt16` returns at offset o: `s[o] + 256 * s[o+1]`, the low byte first |
| Bits.U32At | DxtUtils.cs:35 | defines what `ReadUInt32` returns: four bytes, the least significant first |
| Bits.Pack | DxtUtils.cs:279-284 | defines little-endian concatenation of fixed-width fields, with element 0 in the lowest bits. `LittleEndian` is its 8-bit instance; the index words are its 2-bit and 3-bit instances |
| Bits.BitField | DxtUtils.cs:44 | `(w >> lo) & (2^width - 1)` fits in `width` bits |
| Bits.LittleEndian | DxtUtils.cs:279-284 | n little-endian bytes hold a value below 2^(8n) |
| Bits.LittleEndianSnoc | DxtUtils.cs:280-284 | appending a byte adds `b << 8n` to the value, as each `num += (ulong)ReadByte() << 8n` step does |
| Bits.UnpackPack | DxtUtils.cs:299 | round trip: field k of a packed word is the k-th element packed |
| Bits.U48At | DxtUtils.cs:279-284 | the six-byte alpha index field is below 2^48 |
| Bits.U16AtLittleEndian | DxtUtils.cs:31 | `ReadUInt16` is the little-endian value of the next two bytes |
| Bits.U32AtLittleEndian | DxtUtils.cs:35 | `ReadUInt32` is the little-endian value of the next four bytes |
| Bits.U48AtLittleEndian | DxtUtils.cs:279-284 | the assembled alpha index field is the little-endian value of the six bytes |
| Layout.BlockCount | DxtUtils.cs:16-17 | `(n + 3) / 4` is the least number of 4-pixel blocks that covers n pixels |
| Layout.ByteOffset | DxtUtils.cs:103 | defines the first byte of pixel (x, y) as `(y * width + x) * 4`. In `num6 * width + num5 << 2`, `<<` binds looser than `+`, so the shift applies to the whole sum |
| Layout.BlockAt | DxtUtils.cs:16-24 | defines the row-major number of the block that holds pixel (x, y): `(y / 4) * blocksX + x / 4`, the position of block (x/4, y/4) in the loop order |
| Layout.TexelAt | DxtUtils.cs:99-100 | a pixel's position inside its block is one of 16 |
| Layout.PixelOfOffset | DxtUtils.cs:103-107 | the four bytes at `((y * width) + x) << 2` are channels 0-3 of pixel (x, y) |
| Layout.OffsetInImage | DxtUtils.cs:101-107 | a write guarded by `x < width && y < height` lands inside the `width * height * 4` buffer |
| Layout.BlockOfPixel | DxtUtils.cs:99-107 | the bytes of pixel (x, y) belong to block `(y/4) * blocksX + x/4`, at texel `4*(y%4) + x%4` |
| Layout.PixelInImage | DxtUtils.cs:14 | every byte of the buffer is a channel of a pixel inside the image |
| Layout.BlockIndexInGrid | DxtUtils.cs:16-24 | every byte of the buffer belongs to a block of the grid the loops visit |
| Layout.InBlockIndex | DxtUtils.cs:16-24 | a pixel lies in block (bx, by) exactly when its row-major block number is `by * blocksX + bx` |
| Layout.InBlockNumber | DxtUtils.cs:18-23 | as InBlockIndex, for every byte of the buffer |
| Layout.BlockDigits | DxtUtils.cs:99-100 | pixel (x, y) is texel t of block (bx, by) exactly when `x = 4bx + t%4` and `y = 4by + t/4` |
| Layout.TexelPosition | DxtUtils.cs:99-100 | as BlockDigits, for the pixel of a buffer byte |
| Layout.BlockAtInGrid | DxtUtils.cs:16-24 | the block `(y / 4) * blocksX + x / 4` holding an in-image pixel (x, y) is below `blocksX * blocksY`, so the grid loops visit it |
| Layout.BlockNumberDigits | DxtUtils.cs:16-24 | block number n is the block of pixel (x, y) exactly when its column `n % blocksX` is `x / 4` and its row `n / blocksX` is `y / 4` |
| Layout.UniqueWriter | DxtUtils.cs:16-24 | each pixel of the image is produced by exactly one (block, texel) pair of the grid: block `BlockAt(x, y)` lies inside the visited grid, and a grid pair places its texel at (x, y) exactly when it is (`BlockAt(x, y)`, `TexelAt(x, y)`) |
| Image.BlockSize | DxtUtils.cs:31-35 | a block is 8 or 16 bytes |
| Image.BlockTexel | DxtUtils.cs:22 | chooses the block decoder's texel rule by format: `Bc1BlockTexel`, `Bc2BlockTexel` or `Bc3BlockTexel` |
| Image.RequiredBytes | DxtUtils.cs:16-24 | defines the input a w × h image consumes as `BlockSize(f) * blocksX * blocksY`: one block per cell of the grid the loops visit |
| Image.Channel | DxtUtils.cs:104-107 | defines byte c of a pixel: red, green, blue and alpha, in write order |
| Image.BlockInSource | DxtUtils.cs:16-24 | every block of the grid lies within the required bytes |
| Image.BlockBytes | DxtUtils.cs:22 | a block taken from the stream has the format's block size |
| Image.ImageSpec | DxtUtils.cs:12-27 | the decoded image has exactly `width * height * 4` bytes |
| Image.ImagePixel | DxtUtils.cs:99-107 | pixel (x, y) of the decoded image holds texel `4*(y%4) + x%4` of block `(y/4) * blocksX + x/4` of the stream |
| Image.ImageAt | DxtUtils.cs:99-107 | the same rule, byte by byte |
| Image.Clipping | DxtUtils.cs:101 | two sizes with the same block grid decode the same bytes to the same pixels; the smaller image is the clipped corner of the larger |
| Image.Dxt1AlphaIsBinary | DxtUtils.cs:43-97 | every alpha byte of a DXT1 image is 0 or 255 |
| Image.Blocks | DxtUtils.cs:18-24 | splitting the bytes read into blocks gives whole blocks only |
| Image.BlocksLength | DxtUtils.cs:18-24 | n blocks' worth of bytes splits into n blocks |
| Image.BlocksAppend | DxtUtils.cs:22 | reading one more block appends it to the blocks read so far |
| Image.BlocksIndex | DxtUtils.cs:18-24 | block m is the bytes at `m * blockSize` |
| Image.GridStart | DxtUtils.cs:14 | the zeroed buffer shows no block painted |
| Image.TexelStep | DxtUtils.cs:99-108 | painting texel t at its pixel extends a partly painted block by one texel and leaves every other byte alone |
| Image.GridStep | DxtUtils.cs:20-23 | once block number n is fully painted, the buffer shows n + 1 blocks |
| Image.NewCell | DxtUtils.cs:22 | a byte of the block just painted shows that block's texel |
| Image.OldCell | DxtUtils.cs:22 | a byte outside the block just painted keeps what it showed |
| Image.GridComplete | DxtUtils.cs:18-26 | once every grid cell is painted from the bytes read, the buffer is the decoded image of the stream |
| Image.BlockOfByte | DxtUtils.cs:18-24 | byte k of the image comes from block number `BlockIndexOf(k)` of the stream |
| Reader.BinaryReader.constructor | DxtUtils.cs:8 | a new reader over the bytes is positioned at the first byte |
| Reader.BinaryReader.Rest | DxtUtils.cs:12-27 | defines the bytes not yet read; each driver's result is stated over `Rest()` at entry |
| Reader.BinaryReader.ReadByte | DxtUtils.cs:138 | returns the next byte and advances by one; at the end, fails with end-of-stream |
| Reader.BinaryReader.ReadUInt16 | DxtUtils.cs:31 | returns the little-endian word at the position and advances by two; with fewer than two bytes left, fails and the stream is exhausted |
| Reader.BinaryReader.ReadUInt32 | DxtUtils.cs:35 | the same for four bytes |
| DxtUtil.DecompressDxt1 | DxtUtils.cs:6-10 | succeeds exactly when the bytes hold every block; the result is the decoded DXT1 image of the bytes |
| DxtUtil.DecompressDxt1Stream | DxtUtils.cs:12-27 | succeeds exactly when the rest of the stream holds `blocks * 8` bytes; then it returns a fresh buffer equal to the decoded image and has consumed exactly those bytes |
| DxtUtil.DecompressDxt3 | DxtUtils.cs:113-117 | as DecompressDxt1, for DXT3 |
| DxtUtil.DecompressDxt3Stream | DxtUtils.cs:119-134 | as DecompressDxt1Stream, with 16-byte DXT3 blocks |
| DxtUtil.DecompressDxt5 | DxtUtils.cs:252-256 | as DecompressDxt1, for DXT5 |
| DxtUtil.DecompressDxt5Stream | DxtUtils.cs:258-273 | as DecompressDxt1Stream, with 16-byte DXT5 blocks |
| DxtUtil.StreamGridStep | DxtUtils.cs:20-23 | block n of the grid is the n-th block of bytes from the start; painting it extends what the buffer shows by that block |
| DxtUtil.PaintTexel | DxtUtils.cs:99-108 | writing texel t of a block at its pixel extends the block's painted texels by one |
| DxtUtil.WriteTexel | DxtUtils.cs:99-108 | writes the four channels of pixel (x, y) when it lies inside the image, skips it otherwise, and changes no other byte |
| DxtUtil.DecompressDxt1Block | DxtUtils.cs:29-111 | succeeds exactly when 8 bytes are left; then it consumes exactly 8 bytes and paints that block's 16 texels at cell (x, y), clipped; on failure the buffer is unchanged |
| DxtUtil.PaintDxt1Block | DxtUtils.cs:36-110 | the 4×4 loop paints each texel of the DXT1 block, as the per-texel rule defines it, and nothing else |
| DxtUtil.Bc1TexelAt | DxtUtils.cs:44-97 | the texel the loop computes from color0, color1 and the index word is the block's DXT1 texel |
| DxtUtil.DecompressDxt3Block | DxtUtils.cs:136-250 | as DecompressDxt1Block, with 16-byte DXT3 blocks |
| DxtUtil.Bc2Fields | DxtUtils.cs:138-150 | the eight alpha bytes, the two endpoints and the index word are the block's bytes 0-7, 8-9, 10-11 and 12-15 |
| DxtUtil.PaintDxt3Block | DxtUtils.cs:151-249 | the 4×4 loop with its running nibble counter paints each texel of the DXT3 block, and nothing else |
| DxtUtil.Bc2TexelAt | DxtUtils.cs:160-236 | the texel the loop computes is the four-colour palette entry with alpha nibble k |
| DxtUtil.DecompressDxt5Block | DxtUtils.cs:275-347 | as DecompressDxt1Block, with 16-byte DXT5 blocks |
| DxtUtil.PaintDxt5Block | DxtUtils.cs:290-346 | the 4×4 loop paints each texel of the DXT5 block, and nothing else |
| DxtUtil.Bc3TexelAt | DxtUtils.cs:298-333 | the texel the loop computes is the four-colour palette entry with the level of its 3-bit alpha index |
| DxtUtil.ReadColorBlock | DxtUtils.cs:31-35 | reads color0, color1 and the index word as little-endian 16-, 16- and 32-bit values; fails exactly when fewer than 8 bytes are left |
| DxtUtil.ReadAlphaBytes | DxtUtils.cs:138-145 | reads the next eight bytes; fails exactly when fewer are left |
| DxtUtil.ReadAlphaIndexField | DxtUtils.cs:279-284 | reads the 48-bit little-endian alpha index field; fails exactly when fewer than six bytes are left |
| DxtUtil.AlphaIndexField | DxtUtils.cs:279-284 | the shift-and-add assembly of six bytes is their little-endian value |

## Left out

- Width and height are natural numbers. The source takes `int`: a negative size makes the allocation throw, or gives an empty grid.
- A zero width or height is not an error: the code allocates an empty buffer and reads nothing, and so does the model. Each format has its own entry point, so there is no format tag and no unsupported-format error.
- `width * height * 4` and the byte offsets are unbounded integers. 32-bit overflow of these products is not modelled.
- `using` and disposal are not modelled. The `Stream` overload's `BinaryReader` closes the caller's stream when it is disposed; in the model the reader stays usable.
- The `Stream` overloads are modelled for streams over a byte array (`MemoryStream`). Other stream kinds are not modelled: partial reads, seeking, and I/O errors from a file or network stream.
- End-of-stream is the only failure. A failing read is modelled as a `Failure` result that the caller propagates, in place of the exception. The partly filled buffer is never returned, as in the source.
- Reader.BinaryReader.ReadUInt16: after a failed multi-byte read the model leaves the stream exhausted. This is what a `MemoryStream` does after handing over its last bytes; the model does not state the position for other streams.
- `blockCountX` is passed to the block decoders and, as in the source, not used.
- In the DXT1 and DXT5 texel loops, the texel number `4 * i + j` is also kept in a ghost counter for the proof. It does not appear in the compiled code.
