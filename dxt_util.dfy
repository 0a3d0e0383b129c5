/**
 * The decoder itself: for each format, a driver that allocates the RGBA8
 * buffer and visits the block grid row by row, and a block decoder that reads
 * one block from the stream and paints its sixteen texels, dropping those that
 * fall outside the image. A read past the end of the stream aborts the whole
 * decode with an end-of-stream error; the `byte[]` entry points wrap the bytes
 * in a stream and call the stream ones.
 */
module DxtUtil {
  import opened Bits
  import opened Rgb565
  import opened Texels
  import opened Layout
  import opened Image
  import opened Reader

  /**
   * `DecompressDxt1(byte[], width, height)`: wraps the bytes in a stream and
   * decodes it. Succeeds exactly when the bytes hold every block of the grid;
   * bytes after the last block are ignored.
   */
  method DecompressDxt1(imageData: seq<byte>, width: nat, height: nat) returns (r: Result<array<byte>, StreamError>)
    ensures r.Success? <==> RequiredBytes(Dxt1, width, height) <= |imageData|
    ensures r.Success? ==> fresh(r.value) && r.value[..] == ImageSpec(Dxt1, imageData, width, height)
  {
    var imageReader := new BinaryReader(imageData);
    r := DecompressDxt1Stream(imageReader, width, height);
  }

  /**
   * `DecompressDxt1(Stream, width, height)`: a zeroed `width * height * 4`
   * buffer, then the 8-byte blocks from the stream's current position in
   * row-major grid order, `BlockCount(width)` across and `BlockCount(height)`
   * down. A block that runs past the end of the stream aborts the decode.
   */
  method DecompressDxt1Stream(imageReader: BinaryReader, width: nat, height: nat) returns (r: Result<array<byte>, StreamError>)
    requires imageReader.Valid()
    modifies imageReader
    ensures imageReader.Valid()
    ensures r.Success? <==> RequiredBytes(Dxt1, width, height) <= |old(imageReader.Rest())|
    ensures r.Success? ==> fresh(r.value) && r.value[..] == ImageSpec(Dxt1, old(imageReader.Rest()), width, height)
    ensures r.Success? ==> imageReader.pos == old(imageReader.pos) + RequiredBytes(Dxt1, width, height)
  {
    ghost var p0 := imageReader.pos;
    ghost var rest := imageReader.Rest();
    MulNat(width, height);
    var buffer := new byte[width * height * 4](_ => 0);
    var blockCountX := (width + 3) / 4;
    var blockCountY := (height + 3) / 4;
    GridStart(buffer[..], Dxt1, imageReader.data, p0, width, height);
    ghost var total := blockCountX * blockCountY;
    assert RequiredBytes(Dxt1, width, height) == 8 * total;
    ghost var n := 0;
    for i := 0 to blockCountY
      invariant n == blockCountX * i
      invariant imageReader.Valid() && imageReader.pos == p0 + 8 * n
      invariant Shows(buffer[..], Dxt1, Blocks(Dxt1, imageReader.data[p0..imageReader.pos]), width, height)
    {
      for j := 0 to blockCountX
        invariant n == blockCountX * i + j
        invariant imageReader.Valid() && imageReader.pos == p0 + 8 * n
        invariant Shows(buffer[..], Dxt1, Blocks(Dxt1, imageReader.data[p0..imageReader.pos]), width, height)
      {
        PlaceBound(j, i, blockCountX, blockCountY);
        assert n < total;
        ghost var a := buffer[..];
        ghost var p := imageReader.pos;
        var _ :- DecompressDxt1Block(imageReader, j, i, blockCountX, width, height, buffer);
        StreamGridStep(a, buffer[..], Dxt1, imageReader, p0, p, 8, width, height, j, i, n);
        n := n + 1;
      }
      MulSucc(blockCountX, i);
    }
    GridComplete(buffer[..], Dxt1, imageReader.data, p0, imageReader.pos, rest, width, height);
    return Success(buffer);
  }

  /**
   * `DecompressDxt3(byte[], width, height)`: wraps the bytes in a stream and
   * decodes it. Succeeds exactly when the bytes hold every block of the grid;
   * bytes after the last block are ignored.
   */
  method DecompressDxt3(imageData: seq<byte>, width: nat, height: nat) returns (r: Result<array<byte>, StreamError>)
    ensures r.Success? <==> RequiredBytes(Dxt3, width, height) <= |imageData|
    ensures r.Success? ==> fresh(r.value) && r.value[..] == ImageSpec(Dxt3, imageData, width, height)
  {
    var imageReader := new BinaryReader(imageData);
    r := DecompressDxt3Stream(imageReader, width, height);
  }

  /**
   * `DecompressDxt3(Stream, width, height)`: a zeroed `width * height * 4`
   * buffer, then the 16-byte blocks from the stream's current position in
   * row-major grid order, `BlockCount(width)` across and `BlockCount(height)`
   * down. A block that runs past the end of the stream aborts the decode.
   */
  method DecompressDxt3Stream(imageReader: BinaryReader, width: nat, height: nat) returns (r: Result<array<byte>, StreamError>)
    requires imageReader.Valid()
    modifies imageReader
    ensures imageReader.Valid()
    ensures r.Success? <==> RequiredBytes(Dxt3, width, height) <= |old(imageReader.Rest())|
    ensures r.Success? ==> fresh(r.value) && r.value[..] == ImageSpec(Dxt3, old(imageReader.Rest()), width, height)
    ensures r.Success? ==> imageReader.pos == old(imageReader.pos) + RequiredBytes(Dxt3, width, height)
  {
    ghost var p0 := imageReader.pos;
    ghost var rest := imageReader.Rest();
    MulNat(width, height);
    var buffer := new byte[width * height * 4](_ => 0);
    var blockCountX := (width + 3) / 4;
    var blockCountY := (height + 3) / 4;
    GridStart(buffer[..], Dxt3, imageReader.data, p0, width, height);
    ghost var total := blockCountX * blockCountY;
    assert RequiredBytes(Dxt3, width, height) == 16 * total;
    ghost var n := 0;
    for i := 0 to blockCountY
      invariant n == blockCountX * i
      invariant imageReader.Valid() && imageReader.pos == p0 + 16 * n
      invariant Shows(buffer[..], Dxt3, Blocks(Dxt3, imageReader.data[p0..imageReader.pos]), width, height)
    {
      for j := 0 to blockCountX
        invariant n == blockCountX * i + j
        invariant imageReader.Valid() && imageReader.pos == p0 + 16 * n
        invariant Shows(buffer[..], Dxt3, Blocks(Dxt3, imageReader.data[p0..imageReader.pos]), width, height)
      {
        PlaceBound(j, i, blockCountX, blockCountY);
        assert n < total;
        ghost var a := buffer[..];
        ghost var p := imageReader.pos;
        var _ :- DecompressDxt3Block(imageReader, j, i, blockCountX, width, height, buffer);
        StreamGridStep(a, buffer[..], Dxt3, imageReader, p0, p, 16, width, height, j, i, n);
        n := n + 1;
      }
      MulSucc(blockCountX, i);
    }
    GridComplete(buffer[..], Dxt3, imageReader.data, p0, imageReader.pos, rest, width, height);
    return Success(buffer);
  }

  /**
   * `DecompressDxt5(byte[], width, height)`: wraps the bytes in a stream and
   * decodes it. Succeeds exactly when the bytes hold every block of the grid;
   * bytes after the last block are ignored.
   */
  method DecompressDxt5(imageData: seq<byte>, width: nat, height: nat) returns (r: Result<array<byte>, StreamError>)
    ensures r.Success? <==> RequiredBytes(Dxt5, width, height) <= |imageData|
    ensures r.Success? ==> fresh(r.value) && r.value[..] == ImageSpec(Dxt5, imageData, width, height)
  {
    var imageReader := new BinaryReader(imageData);
    r := DecompressDxt5Stream(imageReader, width, height);
  }

  /**
   * `DecompressDxt5(Stream, width, height)`: a zeroed `width * height * 4`
   * buffer, then the 16-byte blocks from the stream's current position in
   * row-major grid order, `BlockCount(width)` across and `BlockCount(height)`
   * down. A block that runs past the end of the stream aborts the decode.
   */
  method DecompressDxt5Stream(imageReader: BinaryReader, width: nat, height: nat) returns (r: Result<array<byte>, StreamError>)
    requires imageReader.Valid()
    modifies imageReader
    ensures imageReader.Valid()
    ensures r.Success? <==> RequiredBytes(Dxt5, width, height) <= |old(imageReader.Rest())|
    ensures r.Success? ==> fresh(r.value) && r.value[..] == ImageSpec(Dxt5, old(imageReader.Rest()), width, height)
    ensures r.Success? ==> imageReader.pos == old(imageReader.pos) + RequiredBytes(Dxt5, width, height)
  {
    ghost var p0 := imageReader.pos;
    ghost var rest := imageReader.Rest();
    MulNat(width, height);
    var buffer := new byte[width * height * 4](_ => 0);
    var blockCountX := (width + 3) / 4;
    var blockCountY := (height + 3) / 4;
    GridStart(buffer[..], Dxt5, imageReader.data, p0, width, height);
    ghost var total := blockCountX * blockCountY;
    assert RequiredBytes(Dxt5, width, height) == 16 * total;
    ghost var n := 0;
    for i := 0 to blockCountY
      invariant n == blockCountX * i
      invariant imageReader.Valid() && imageReader.pos == p0 + 16 * n
      invariant Shows(buffer[..], Dxt5, Blocks(Dxt5, imageReader.data[p0..imageReader.pos]), width, height)
    {
      for j := 0 to blockCountX
        invariant n == blockCountX * i + j
        invariant imageReader.Valid() && imageReader.pos == p0 + 16 * n
        invariant Shows(buffer[..], Dxt5, Blocks(Dxt5, imageReader.data[p0..imageReader.pos]), width, height)
      {
        PlaceBound(j, i, blockCountX, blockCountY);
        assert n < total;
        ghost var a := buffer[..];
        ghost var p := imageReader.pos;
        var _ :- DecompressDxt5Block(imageReader, j, i, blockCountX, width, height, buffer);
        StreamGridStep(a, buffer[..], Dxt5, imageReader, p0, p, 16, width, height, j, i, n);
        n := n + 1;
      }
      MulSucc(blockCountX, i);
    }
    GridComplete(buffer[..], Dxt5, imageReader.data, p0, imageReader.pos, rest, width, height);
    return Success(buffer);
  }

  /**
   * Block n of the grid is read n blocks past where the decode began; once
   * its texels are painted, the buffer shows one more block of the bytes read.
   */
  lemma StreamGridStep(a: seq<byte>, a': seq<byte>, f: Format, reader: BinaryReader, p0: nat, p: nat, size: nat,
                       w: nat, h: nat, x: nat, y: nat, n: nat)
    requires size == BlockSize(f)
    requires |a| == w * h * 4 && |a'| == w * h * 4
    requires reader.Valid() && p0 <= p && reader.pos == p + size && p == p0 + size * n
    requires x < BlockCount(w) && n == BlockCount(w) * y + x
    requires Shows(a, f, Blocks(f, reader.data[p0..p]), w, h)
    requires BlockWritten(a', a, w, h, x, y, f, reader.data[p..p + size], 16)
    ensures Shows(a', f, Blocks(f, reader.data[p0..reader.pos]), w, h)
  {
    var data := reader.data;
    assert data[p0..p + size] == data[p0..p] + data[p..p + size];
    BlocksAppend(f, data[p0..p], data[p..p + size], n);
    BlocksLength(f, data[p0..p], n);
    GridStep(a, a', f, Blocks(f, data[p0..p]), data[p..p + size], w, h, x, y);
  }

  /**
   * Writes texel t of block (bx, by') at its pixel: one more texel of the
   * block is then written, and nothing else has changed.
   */
  method PaintTexel(imageData: array<byte>, width: nat, height: nat, px: nat, py: nat, p: Rgba,
                    ghost a0: seq<byte>, ghost bx: nat, ghost by': nat, ghost f: Format, ghost blk: seq<byte>, ghost t: nat)
    requires imageData.Length == width * height * 4 && |a0| == width * height * 4
    requires |blk| == BlockSize(f) && t < 16
    requires px == 4 * bx + t % 4 && py == 4 * by' + t / 4 && p == BlockTexel(f, blk, t)
    requires BlockWritten(imageData[..], a0, width, height, bx, by', f, blk, t)
    modifies imageData
    ensures BlockWritten(imageData[..], a0, width, height, bx, by', f, blk, t + 1)
  {
    ghost var a := imageData[..];
    WriteTexel(imageData, width, height, px, py, p);
    TexelStep(a, imageData[..], a0, width, height, bx, by', f, blk, t, px, py, p);
  }

  /** Pixel (px, py) := p, skipped when the pixel lies outside the image. */
  method WriteTexel(imageData: array<byte>, width: nat, height: nat, px: nat, py: nat, p: Rgba)
    requires imageData.Length == width * height * 4
    modifies imageData
    ensures Painted(imageData[..], old(imageData[..]), width, height, px, py, p)
  {
    NonEmptyImage(width, height);
    if px < width && py < height {
      var o := (py * width + px) * 4;
      OffsetInImage(px, py, width, height, 3);
      imageData[o] := p.r;
      imageData[o + 1] := p.g;
      imageData[o + 2] := p.b;
      imageData[o + 3] := p.a;
      forall k | 0 <= k < imageData.Length
        ensures imageData[k] == if PixelX(k, width) == px && PixelY(k, width) == py
                                then Channel(p, k % 4) else old(imageData[k])
      {
        if o <= k < o + 4 {
          PixelOfOffset(px, py, width, k - o);
        } else {
          PixelInImage(k, width, height);
        }
      }
    } else {
      forall k | 0 <= k < imageData.Length
        ensures PixelX(k, width) != px || PixelY(k, width) != py
      {
        PixelInImage(k, width, height);
      }
    }
  }

  /**
   * Reads one 8-byte DXT1 block (color0, color1, the index word) and paints
   * its texels at block (x, y). `blockCountX` is accepted and not used.
   */
  method DecompressDxt1Block(imageReader: BinaryReader, x: nat, y: nat, blockCountX: nat,
                             width: nat, height: nat, imageData: array<byte>) returns (r: Result<(), StreamError>)
    requires imageReader.Valid() && imageData.Length == width * height * 4
    modifies imageReader, imageData
    ensures imageReader.Valid()
    ensures r.Success? <==> old(imageReader.pos) + 8 <= |imageReader.data|
    ensures r.Success? ==> imageReader.pos == old(imageReader.pos) + 8
    ensures r.Success? ==> BlockWritten(imageData[..], old(imageData[..]), width, height, x, y,
                                     Dxt1, imageReader.data[old(imageReader.pos)..old(imageReader.pos) + 8], 16)
    ensures r.Failure? ==> imageData[..] == old(imageData[..])
  {
    var words :- ReadColorBlock(imageReader);
    var (color0, color1, indices) := words;
    ghost var blk := imageReader.data[old(imageReader.pos)..old(imageReader.pos) + 8];
    ghost var a1 := imageData[..];
    assert a1 == old(imageData[..]);
    PaintDxt1Block(color0, color1, indices, x, y, width, height, imageData, blk);
    return Success(());
  }

  /**
   * The texel loop of a DXT1 block: the comparison of the raw endpoints picks
   * the four-colour or the three-colour-plus-transparent palette.
   */
  method PaintDxt1Block(color0: u16, color1: u16, indices: u32, x: nat, y: nat,
                        width: nat, height: nat, imageData: array<byte>, ghost blk: seq<byte>)
    requires |blk| == 8 && color0 == U16At(blk, 0) && color1 == U16At(blk, 2) && indices == U32At(blk, 4)
    requires imageData.Length == width * height * 4
    modifies imageData
    ensures BlockWritten(imageData[..], old(imageData[..]), width, height, x, y, Dxt1, blk, 16)
  {
    ghost var a0 := imageData[..];
    ghost var k := 0;
    var i := 0;
    while i < 4
      invariant 0 <= i <= 4 && k == 4 * i
      invariant BlockWritten(imageData[..], a0, width, height, x, y, Dxt1, blk, k)
    {
      var j := 0;
      while j < 4
        invariant 0 <= j <= 4 && k == 4 * i + j
        invariant BlockWritten(imageData[..], a0, width, height, x, y, Dxt1, blk, k)
      {
        var t := Bc1Texel(color0, color1, ColorIndex(indices, 4 * i + j));
        Bc1TexelAt(blk, color0, color1, indices, k);
        DivModUnique(k, 4, i, j);
        PaintTexel(imageData, width, height, 4 * x + j, 4 * y + i, t, a0, x, y, Dxt1, blk, k);
        k := k + 1;
        j := j + 1;
      }
      i := i + 1;
    }
  }

  /**
   * Reads one 16-byte DXT3 block (eight bytes of 4-bit alphas, color0,
   * color1, the index word) and paints its texels at block (x, y).
   * `blockCountX` is accepted and not used.
   */
  method DecompressDxt3Block(imageReader: BinaryReader, x: nat, y: nat, blockCountX: nat,
                             width: nat, height: nat, imageData: array<byte>) returns (r: Result<(), StreamError>)
    requires imageReader.Valid() && imageData.Length == width * height * 4
    modifies imageReader, imageData
    ensures imageReader.Valid()
    ensures r.Success? <==> old(imageReader.pos) + 16 <= |imageReader.data|
    ensures r.Success? ==> imageReader.pos == old(imageReader.pos) + 16
    ensures r.Success? ==> BlockWritten(imageData[..], old(imageData[..]), width, height, x, y,
                                     Dxt3, imageReader.data[old(imageReader.pos)..old(imageReader.pos) + 16], 16)
    ensures r.Failure? ==> imageData[..] == old(imageData[..])
  {
    ghost var p0 := imageReader.pos;
    var alphaBytes :- ReadAlphaBytes(imageReader);
    ghost var q := imageReader.pos;
    var words :- ReadColorBlock(imageReader);
    var (color0, color1, indices) := words;
    ghost var blk := imageReader.data[p0..p0 + 16];
    Bc2Fields(imageReader.data, p0, q, blk);
    ghost var a1 := imageData[..];
    assert a1 == old(imageData[..]);
    PaintDxt3Block(alphaBytes, color0, color1, indices, x, y, width, height, imageData, blk);
    return Success(());
  }

  /** Where the fields of a 16-byte DXT3 block at p0 sit in the stream: the alpha bytes, then the colour sub-block at q. */
  lemma Bc2Fields(data: seq<byte>, p0: nat, q: nat, blk: seq<byte>)
    requires q == p0 + 8 && q + 8 <= |data| && blk == data[p0..p0 + 16]
    ensures blk[0..8] == data[p0..q]
    ensures U16At(blk, 8) == U16At(data, q) && U16At(blk, 10) == U16At(data, q + 2)
    ensures U32At(blk, 12) == U32At(data, q + 4)
  {
    SubSlice(data, p0, p0 + 16, 0, 8);
  }

  /**
   * The texel loop of a DXT3 block: a running counter picks each texel's
   * alpha nibble, and the colour comes from the four-colour palette.
   */
  method PaintDxt3Block(alphaBytes: seq<byte>, color0: u16, color1: u16, indices: u32, x: nat, y: nat,
                        width: nat, height: nat, imageData: array<byte>, ghost blk: seq<byte>)
    requires |blk| == 16 && alphaBytes == blk[0..8]
    requires color0 == U16At(blk, 8) && color1 == U16At(blk, 10) && indices == U32At(blk, 12)
    requires imageData.Length == width * height * 4
    modifies imageData
    ensures BlockWritten(imageData[..], old(imageData[..]), width, height, x, y, Dxt3, blk, 16)
  {
    ghost var a0 := imageData[..];
    var e0 := ConvertRgb565ToRgb888(color0);
    var e1 := ConvertRgb565ToRgb888(color1);
    var nibble := 0;
    var i := 0;
    while i < 4
      invariant 0 <= i <= 4 && nibble == 4 * i
      invariant BlockWritten(imageData[..], a0, width, height, x, y, Dxt3, blk, nibble)
    {
      var j := 0;
      while j < 4
        invariant 0 <= j <= 4 && nibble == 4 * i + j
        invariant BlockWritten(imageData[..], a0, width, height, x, y, Dxt3, blk, nibble)
      {
        ghost var k := nibble;
        var alpha := Bc2Alpha(alphaBytes, nibble);
        nibble := nibble + 1;
        var c := FourColor(e0, e1, ColorIndex(indices, 4 * i + j));
        var t := Rgba(c.r, c.g, c.b, alpha);
        Bc2TexelAt(blk, alphaBytes, color0, color1, indices, k);
        DivModUnique(k, 4, i, j);
        PaintTexel(imageData, width, height, 4 * x + j, 4 * y + i, t, a0, x, y, Dxt3, blk, k);
        j := j + 1;
      }
      i := i + 1;
    }
  }

  /**
   * Reads one 16-byte DXT5 block (alpha0, alpha1, the 48-bit alpha index
   * field assembled byte by byte, color0, color1, the index word) and paints
   * its texels at block (x, y). `blockCountX` is accepted and not used.
   */
  method DecompressDxt5Block(imageReader: BinaryReader, x: nat, y: nat, blockCountX: nat,
                             width: nat, height: nat, imageData: array<byte>) returns (r: Result<(), StreamError>)
    requires imageReader.Valid() && imageData.Length == width * height * 4
    modifies imageReader, imageData
    ensures imageReader.Valid()
    ensures r.Success? <==> old(imageReader.pos) + 16 <= |imageReader.data|
    ensures r.Success? ==> imageReader.pos == old(imageReader.pos) + 16
    ensures r.Success? ==> BlockWritten(imageData[..], old(imageData[..]), width, height, x, y,
                                     Dxt5, imageReader.data[old(imageReader.pos)..old(imageReader.pos) + 16], 16)
    ensures r.Failure? ==> imageData[..] == old(imageData[..])
  {
    ghost var p0 := imageReader.pos;
    var alpha0 :- imageReader.ReadByte();
    var alpha1 :- imageReader.ReadByte();
    var alphaIndices :- ReadAlphaIndexField(imageReader);
    var words :- ReadColorBlock(imageReader);
    var (color0, color1, indices) := words;
    ghost var blk := imageReader.data[p0..p0 + 16];
    assert alpha0 == blk[0] && alpha1 == blk[1] && alphaIndices == U48At(blk, 2);
    assert color0 == U16At(blk, 8) && color1 == U16At(blk, 10) && indices == U32At(blk, 12);
    ghost var a1 := imageData[..];
    assert a1 == old(imageData[..]);
    PaintDxt5Block(alpha0, alpha1, alphaIndices, color0, color1, indices, x, y, width, height, imageData, blk);
    return Success(());
  }

  /**
   * The texel loop of a DXT5 block: a 3-bit index into the alpha ramp and a
   * 2-bit index into the four-colour palette per texel.
   */
  method PaintDxt5Block(alpha0: byte, alpha1: byte, alphaIndices: nat, color0: u16, color1: u16, indices: u32, x: nat, y: nat,
                        width: nat, height: nat, imageData: array<byte>, ghost blk: seq<byte>)
    requires |blk| == 16 && alpha0 == blk[0] && alpha1 == blk[1] && alphaIndices == U48At(blk, 2)
    requires color0 == U16At(blk, 8) && color1 == U16At(blk, 10) && indices == U32At(blk, 12)
    requires imageData.Length == width * height * 4
    modifies imageData
    ensures BlockWritten(imageData[..], old(imageData[..]), width, height, x, y, Dxt5, blk, 16)
  {
    ghost var a0 := imageData[..];
    var e0 := ConvertRgb565ToRgb888(color0);
    var e1 := ConvertRgb565ToRgb888(color1);
    ghost var k := 0;
    var i := 0;
    while i < 4
      invariant 0 <= i <= 4 && k == 4 * i
      invariant BlockWritten(imageData[..], a0, width, height, x, y, Dxt5, blk, k)
    {
      var j := 0;
      while j < 4
        invariant 0 <= j <= 4 && k == 4 * i + j
        invariant BlockWritten(imageData[..], a0, width, height, x, y, Dxt5, blk, k)
      {
        var c := FourColor(e0, e1, ColorIndex(indices, 4 * i + j));
        var alpha := Bc3Alpha(alpha0, alpha1, AlphaIndex(alphaIndices, 4 * i + j));
        var t := Rgba(c.r, c.g, c.b, alpha);
        Bc3TexelAt(blk, alpha0, alpha1, alphaIndices, color0, color1, indices, k);
        DivModUnique(k, 4, i, j);
        PaintTexel(imageData, width, height, 4 * x + j, 4 * y + i, t, a0, x, y, Dxt5, blk, k);
        k := k + 1;
        j := j + 1;
      }
      i := i + 1;
    }
  }

  /** Texel k of a DXT1 block, from the fields the decoder has read. */
  lemma Bc1TexelAt(blk: seq<byte>, color0: u16, color1: u16, indices: u32, k: nat)
    requires |blk| == 8 && color0 == U16At(blk, 0) && color1 == U16At(blk, 2) && indices == U32At(blk, 4)
    requires k < 16
    ensures BlockTexel(Dxt1, blk, k) == Bc1Texel(color0, color1, ColorIndex(indices, k))
  {
  }

  /** Texel k of a DXT3 block, from the fields the decoder has read. */
  lemma Bc2TexelAt(blk: seq<byte>, alphaBytes: seq<byte>, color0: u16, color1: u16, indices: u32, k: nat)
    requires |blk| == 16 && alphaBytes == blk[0..8]
    requires color0 == U16At(blk, 8) && color1 == U16At(blk, 10) && indices == U32At(blk, 12)
    requires k < 16
    ensures var c := FourColor(ConvertRgb565ToRgb888(color0), ConvertRgb565ToRgb888(color1), ColorIndex(indices, k));
            BlockTexel(Dxt3, blk, k) == Rgba(c.r, c.g, c.b, Bc2Alpha(alphaBytes, k))
  {
  }

  /** Texel k of a DXT5 block, from the fields the decoder has read. */
  lemma Bc3TexelAt(blk: seq<byte>, alpha0: byte, alpha1: byte, alphaIndices: nat, color0: u16, color1: u16, indices: u32, k: nat)
    requires |blk| == 16 && alpha0 == blk[0] && alpha1 == blk[1] && alphaIndices == U48At(blk, 2)
    requires color0 == U16At(blk, 8) && color1 == U16At(blk, 10) && indices == U32At(blk, 12)
    requires k < 16
    ensures var c := FourColor(ConvertRgb565ToRgb888(color0), ConvertRgb565ToRgb888(color1), ColorIndex(indices, k));
            BlockTexel(Dxt5, blk, k) == Rgba(c.r, c.g, c.b, Bc3Alpha(alpha0, alpha1, AlphaIndex(alphaIndices, k)))
  {
  }

  /** `ReadUInt16`, `ReadUInt16`, `ReadUInt32`: the colour half of a block (color0, color1, the index word). */
  method ReadColorBlock(imageReader: BinaryReader) returns (r: Result<(u16, u16, u32), StreamError>)
    requires imageReader.Valid()
    modifies imageReader
    ensures imageReader.Valid()
    ensures r.Success? <==> old(imageReader.pos) + 8 <= |imageReader.data|
    ensures r.Success? ==> imageReader.pos == old(imageReader.pos) + 8
    ensures r.Success? ==>
              var p := old(imageReader.pos);
              r.value == (U16At(imageReader.data, p), U16At(imageReader.data, p + 2), U32At(imageReader.data, p + 4))
  {
    var color0 :- imageReader.ReadUInt16();
    var color1 :- imageReader.ReadUInt16();
    var indices :- imageReader.ReadUInt32();
    return Success((color0, color1, indices));
  }

  /** Eight `ReadByte` calls: the DXT3 block's 4-bit alphas. */
  method ReadAlphaBytes(imageReader: BinaryReader) returns (r: Result<seq<byte>, StreamError>)
    requires imageReader.Valid()
    modifies imageReader
    ensures imageReader.Valid()
    ensures r.Success? <==> old(imageReader.pos) + 8 <= |imageReader.data|
    ensures r.Success? ==> imageReader.pos == old(imageReader.pos) + 8
    ensures r.Success? ==> r.value == imageReader.data[old(imageReader.pos)..old(imageReader.pos) + 8]
  {
    var b :- imageReader.ReadByte();
    var b2 :- imageReader.ReadByte();
    var b3 :- imageReader.ReadByte();
    var b4 :- imageReader.ReadByte();
    var b5 :- imageReader.ReadByte();
    var b6 :- imageReader.ReadByte();
    var b7 :- imageReader.ReadByte();
    var b8 :- imageReader.ReadByte();
    return Success([b, b2, b3, b4, b5, b6, b7, b8]);
  }

  /** Six `ReadByte` calls: the 48-bit alpha index field of a DXT5 block. */
  method ReadAlphaIndexField(imageReader: BinaryReader) returns (r: Result<u64, StreamError>)
    requires imageReader.Valid()
    modifies imageReader
    ensures imageReader.Valid()
    ensures r.Success? <==> old(imageReader.pos) + 6 <= |imageReader.data|
    ensures r.Success? ==> imageReader.pos == old(imageReader.pos) + 6
    ensures r.Success? ==> r.value == U48At(imageReader.data, old(imageReader.pos))
  {
    ghost var p0 := imageReader.pos;
    var c0 :- imageReader.ReadByte();
    var c1 :- imageReader.ReadByte();
    var c2 :- imageReader.ReadByte();
    var c3 :- imageReader.ReadByte();
    var c4 :- imageReader.ReadByte();
    var c5 :- imageReader.ReadByte();
    var field := AlphaIndexField(c0, c1, c2, c3, c4, c5);
    assert [c0, c1, c2, c3, c4, c5] == imageReader.data[p0..p0 + 6];
    U48AtLittleEndian(imageReader.data, p0);
    return Success(field);
  }

  /** `field = b0; field += b1 << 8; ...; field += b5 << 40`: the little-endian value of the six bytes. */
  method AlphaIndexField(b0: byte, b1: byte, b2: byte, b3: byte, b4: byte, b5: byte) returns (field: u64)
    ensures field == LittleEndian([b0, b1, b2, b3, b4, b5])
  {
    Pow2Values();
    field := b0;
    ghost var seen: seq<byte> := [b0];
    assert LittleEndian(seen) == b0 by {
      LittleEndianSnoc([], b0);
      assert [] + [b0] == seen;
    }
    LittleEndianSnoc(seen, b1);
    field := field + b1 * 0x100;
    seen := seen + [b1];
    LittleEndianSnoc(seen, b2);
    field := field + b2 * 0x1_0000;
    seen := seen + [b2];
    LittleEndianSnoc(seen, b3);
    field := field + b3 * 0x100_0000;
    seen := seen + [b3];
    LittleEndianSnoc(seen, b4);
    field := field + b4 * 0x1_0000_0000;
    seen := seen + [b4];
    LittleEndianSnoc(seen, b5);
    field := field + b5 * 0x100_0000_0000;
    seen := seen + [b5];
    assert seen == [b0, b1, b2, b3, b4, b5];
  }
}
