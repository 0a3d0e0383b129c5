/**
 * What a decoded image is: for each of the three formats, the RGBA8 buffer
 * whose every pixel (x, y) holds texel 4 * (y % 4) + x % 4 of block
 * (x / 4, y / 4), the blocks being read one after the other, row by row, from
 * the compressed bytes. Texels that fall outside the image are dropped.
 */
module Image {
  import opened Bits
  import opened Texels
  import opened Layout

  datatype Format = Dxt1 | Dxt3 | Dxt5

  /** Bytes per 4x4 block: 8 for DXT1, 16 for DXT3 and DXT5. */
  function BlockSize(f: Format): (size: nat)
    ensures size == 8 || size == 16
  {
    if f == Dxt1 then 8 else 16
  }

  function BlockTexel(f: Format, blk: seq<byte>, t: nat): (p: Rgba)
    requires |blk| == BlockSize(f) && t < 16
  {
    match f
    case Dxt1 => Bc1BlockTexel(blk, t)
    case Dxt3 => Bc2BlockTexel(blk, t)
    case Dxt5 => Bc3BlockTexel(blk, t)
  }

  /** Byte `c` of a pixel in the buffer: red, green, blue, alpha. */
  function Channel(p: Rgba, c: nat): (v: byte)
    requires c < 4
  {
    if c == 0 then p.r else if c == 1 then p.g else if c == 2 then p.b else p.a
  }

  /** The compressed bytes a w x h image consumes: one block per grid cell. */
  function RequiredBytes(f: Format, w: nat, h: nat): (n: nat) {
    MulNat(BlockCount(w), BlockCount(h));
    BlockSize(f) * (BlockCount(w) * BlockCount(h))
  }

  lemma BlockInSource(f: Format, w: nat, h: nat, n: nat)
    requires n < BlockCount(w) * BlockCount(h)
    ensures (n + 1) * BlockSize(f) <= RequiredBytes(f, w, h)
    ensures n * BlockSize(f) + BlockSize(f) <= RequiredBytes(f, w, h)
  {
    MulLe(n + 1, BlockCount(w) * BlockCount(h), BlockSize(f));
  }

  /** Block number `n` of the stream `src`. */
  function BlockBytes(src: seq<byte>, f: Format, n: nat): (blk: seq<byte>)
    requires (n + 1) * BlockSize(f) <= |src|
    ensures |blk| == BlockSize(f)
  {
    src[n * BlockSize(f)..n * BlockSize(f) + BlockSize(f)]
  }

  function ExpectedByte(f: Format, src: seq<byte>, w: nat, h: nat, k: nat): (v: byte)
    requires RequiredBytes(f, w, h) <= |src| && k < w * h * 4
  {
    BlockIndexInGrid(k, w, h);
    BlockInSource(f, w, h, BlockIndexOf(k, w));
    Channel(BlockTexel(f, BlockBytes(src, f, BlockIndexOf(k, w)), TexelOf(k, w)), k % 4)
  }

  /** The decoded w x h image of the compressed bytes `src`. */
  function ImageSpec(f: Format, src: seq<byte>, w: nat, h: nat): (img: seq<byte>)
    requires RequiredBytes(f, w, h) <= |src|
    ensures |img| == w * h * 4
  {
    MulNat(w, h);
    seq(w * h * 4, k requires 0 <= k < w * h * 4 => ExpectedByte(f, src, w, h, k))
  }

  /**
   * Pixel (x, y) of the decoded image is texel 4 * (y % 4) + x % 4 of block
   * (x / 4, y / 4), that is of block number (y / 4) * BlockCount(w) + x / 4.
   */
  lemma ImagePixel(f: Format, src: seq<byte>, w: nat, h: nat, x: nat, y: nat, c: nat)
    requires RequiredBytes(f, w, h) <= |src|
    requires x < w && y < h && c < 4
    ensures BlockAt(x, y, w) < BlockCount(w) * BlockCount(h)
    ensures (BlockAt(x, y, w) + 1) * BlockSize(f) <= |src|
    ensures ByteOffset(x, y, w) + c < w * h * 4
    ensures ImageSpec(f, src, w, h)[ByteOffset(x, y, w) + c]
            == Channel(BlockTexel(f, BlockBytes(src, f, BlockAt(x, y, w)), TexelAt(x, y)), c)
  {
    BlockOfPixel(x, y, w, h, c);
    ImageAt(f, src, w, h, ByteOffset(x, y, w) + c);
  }

  /** Byte k of the decoded image, by the block and texel its pixel belongs to. */
  lemma ImageAt(f: Format, src: seq<byte>, w: nat, h: nat, k: nat)
    requires RequiredBytes(f, w, h) <= |src| && k < w * h * 4
    ensures BlockIndexOf(k, w) < BlockCount(w) * BlockCount(h) && TexelOf(k, w) < 16
    ensures (BlockIndexOf(k, w) + 1) * BlockSize(f) <= |src|
    ensures ImageSpec(f, src, w, h)[k]
            == Channel(BlockTexel(f, BlockBytes(src, f, BlockIndexOf(k, w)), TexelOf(k, w)), k % 4)
  {
    BlockIndexInGrid(k, w, h);
    BlockInSource(f, w, h, BlockIndexOf(k, w));
  }

  /**
   * Images whose sizes round up to the same block grid decode the same bytes
   * to the same pixels: the smaller one is the top-left corner of the larger,
   * the texels beyond its edge having been dropped.
   */
  lemma Clipping(f: Format, src: seq<byte>, w: nat, h: nat, w': nat, h': nat, x: nat, y: nat, c: nat)
    requires BlockCount(w) == BlockCount(w') && BlockCount(h) == BlockCount(h')
    requires RequiredBytes(f, w, h) <= |src|
    requires x < w <= w' && y < h <= h' && c < 4
    ensures ByteOffset(x, y, w) + c < w * h * 4 && ByteOffset(x, y, w') + c < w' * h' * 4
    ensures ImageSpec(f, src, w, h)[ByteOffset(x, y, w) + c]
            == ImageSpec(f, src, w', h')[ByteOffset(x, y, w') + c]
  {
    ImagePixel(f, src, w, h, x, y, c);
    ImagePixel(f, src, w', h', x, y, c);
    assert BlockAt(x, y, w) == BlockAt(x, y, w');
  }

  /** In a DXT1 image every alpha byte is 0 (transparent) or 255 (opaque). */
  lemma Dxt1AlphaIsBinary(src: seq<byte>, w: nat, h: nat, k: nat)
    requires RequiredBytes(Dxt1, w, h) <= |src| && k < w * h * 4 && k % 4 == 3
    ensures ImageSpec(Dxt1, src, w, h)[k] == 0 || ImageSpec(Dxt1, src, w, h)[k] == 255
  {
  }

  // The states the decoder passes through, and how each step advances them.

  /** `a` is `a0` with pixel (px, py) set to `p`; a pixel outside the image changes nothing. */
  ghost predicate Painted(a: seq<byte>, a0: seq<byte>, w: nat, h: nat, px: nat, py: nat, p: Rgba)
    requires |a| == w * h * 4 && |a0| == w * h * 4
  {
    NonEmptyImage(w, h);
    forall k :: 0 <= k < |a| ==>
      a[k] == if PixelX(k, w) == px && PixelY(k, w) == py then Channel(p, k % 4) else a0[k]
  }

  /**
   * The first `t` texels of block `blk`, painted at grid cell (bx, by), are in
   * `a`; every other byte is as in `a0`.
   */
  ghost predicate BlockWritten(a: seq<byte>, a0: seq<byte>, w: nat, h: nat, bx: nat, by': nat,
                               f: Format, blk: seq<byte>, t: nat)
    requires |a| == w * h * 4 && |a0| == w * h * 4
    requires |blk| == BlockSize(f) && t <= 16
  {
    NonEmptyImage(w, h);
    forall k {:trigger InBlock(k, w, bx, by')} :: 0 <= k < |a| ==>
      (InBlock(k, w, bx, by') && TexelOf(k, w) < t ==> a[k] == Channel(BlockTexel(f, blk, TexelOf(k, w)), k % 4)) &&
      (!(InBlock(k, w, bx, by') && TexelOf(k, w) < t) ==> a[k] == a0[k])
  }

  ghost predicate WholeBlocks(f: Format, blocks: seq<seq<byte>>) {
    forall i :: 0 <= i < |blocks| ==> |blocks[i]| == BlockSize(f)
  }

  /** The whole blocks of `s`, in stream order; a trailing partial block is left out. */
  function Blocks(f: Format, s: seq<byte>): (blocks: seq<seq<byte>>)
    ensures WholeBlocks(f, blocks)
    decreases |s|
  {
    if |s| < BlockSize(f) then []
    else [s[..BlockSize(f)]] + Blocks(f, s[BlockSize(f)..])
  }

  /** n blocks' worth of bytes is n blocks. */
  lemma {:induction false} BlocksLength(f: Format, s: seq<byte>, n: nat)
    requires |s| == BlockSize(f) * n
    ensures |Blocks(f, s)| == n
  {
    if n > 0 {
      BlocksLength(f, s[BlockSize(f)..], n - 1);
    }
  }

  /** Reading one more block appends it to the blocks read so far. */
  lemma {:induction false} BlocksAppend(f: Format, s: seq<byte>, blk: seq<byte>, n: nat)
    requires |s| == BlockSize(f) * n && |blk| == BlockSize(f)
    ensures Blocks(f, s + blk) == Blocks(f, s) + [blk]
  {
    var size := BlockSize(f);
    if n == 0 {
      assert s + blk == blk;
      assert blk[..size] == blk;
      assert Blocks(f, blk[size..]) == [];
    } else {
      assert (s + blk)[..size] == s[..size];
      assert (s + blk)[size..] == s[size..] + blk;
      BlocksAppend(f, s[size..], blk, n - 1);
    }
  }

  /** Block m of `s` is the BlockSize(f) bytes at offset p = BlockSize(f) * m. */
  lemma {:induction false} BlocksIndex(f: Format, s: seq<byte>, m: nat, p: nat)
    requires p == BlockSize(f) * m && p + BlockSize(f) <= |s|
    ensures m < |Blocks(f, s)|
    ensures Blocks(f, s)[m] == s[p..p + BlockSize(f)]
  {
    var size := BlockSize(f);
    if m > 0 {
      MulSucc(size, m - 1);
      BlocksIndex(f, s[size..], m - 1, p - size);
      DropSlice(s, size, p, p + size);
    }
  }

  /**
   * Byte k of the buffer once `blocks` are painted, block m at grid cell
   * (m % BlockCount(w), m / BlockCount(w)); the bytes of later blocks are still zero.
   */
  function PartialByte(f: Format, blocks: seq<seq<byte>>, w: nat, k: nat): (v: byte)
    requires WholeBlocks(f, blocks)
  {
    if w > 0 && BlockIndexOf(k, w) < |blocks|
    then Channel(BlockTexel(f, blocks[BlockIndexOf(k, w)], TexelOf(k, w)), k % 4)
    else 0
  }

  /** The buffer `a` shows the first |blocks| blocks of the grid painted, and nothing else. */
  ghost predicate Shows(a: seq<byte>, f: Format, blocks: seq<seq<byte>>, w: nat, h: nat)
    requires WholeBlocks(f, blocks)
  {
    |a| == w * h * 4 &&
    forall k {:trigger PartialByte(f, blocks, w, k)} :: 0 <= k < |a| ==> a[k] == PartialByte(f, blocks, w, k)
  }

  /** Before any block is read the buffer is all zeros. */
  lemma GridStart(a: seq<byte>, f: Format, data: seq<byte>, p: nat, w: nat, h: nat)
    requires |a| == w * h * 4 && p <= |data|
    requires forall k :: 0 <= k < |a| ==> a[k] == 0
    ensures Shows(a, f, Blocks(f, data[p..p]), w, h)
  {
  }

  /** Painting texel t of the block at its pixel extends the block by one texel. */
  lemma TexelStep(a: seq<byte>, a': seq<byte>, a0: seq<byte>, w: nat, h: nat, bx: nat, by': nat,
                  f: Format, blk: seq<byte>, t: nat, px: nat, py: nat, p: Rgba)
    requires |a| == w * h * 4 && |a'| == w * h * 4 && |a0| == w * h * 4
    requires |blk| == BlockSize(f) && t < 16
    requires px == 4 * bx + t % 4 && py == 4 * by' + t / 4 && p == BlockTexel(f, blk, t)
    requires BlockWritten(a, a0, w, h, bx, by', f, blk, t)
    requires Painted(a', a, w, h, px, py, p)
    ensures BlockWritten(a', a0, w, h, bx, by', f, blk, t + 1)
  {
    NonEmptyImage(w, h);
    forall k | 0 <= k < |a'|
      ensures a'[k] == if InBlock(k, w, bx, by') && TexelOf(k, w) < t + 1
                       then Channel(BlockTexel(f, blk, TexelOf(k, w)), k % 4)
                       else a0[k]
    {
      TexelPosition(k, w, bx, by', t);
    }
  }

  /** Once all 16 texels of block number |blocks| are written, that block is painted too. */
  lemma GridStep(a: seq<byte>, a': seq<byte>, f: Format, blocks: seq<seq<byte>>, blk: seq<byte>,
                 w: nat, h: nat, bx: nat, by': nat)
    requires |a| == w * h * 4 && |a'| == w * h * 4
    requires WholeBlocks(f, blocks) && |blk| == BlockSize(f)
    requires bx < BlockCount(w) && |blocks| == BlockCount(w) * by' + bx
    requires Shows(a, f, blocks, w, h)
    requires BlockWritten(a', a, w, h, bx, by', f, blk, 16)
    ensures WholeBlocks(f, blocks + [blk])
    ensures Shows(a', f, blocks + [blk], w, h)
  {
    assert WholeBlocks(f, blocks + [blk]);
    forall k | 0 <= k < |a'|
      ensures a'[k] == PartialByte(f, blocks + [blk], w, k)
    {
      InBlockNumber(k, w, h, bx, by');
      if BlockIndexOf(k, w) == |blocks| {
        NewCell(a, a', f, blocks, blk, w, h, bx, by', k);
      } else {
        OldCell(a, a', f, blocks, blk, w, h, bx, by', k);
      }
    }
  }

  /** A byte of the block just painted shows that block's texel. */
  lemma NewCell(a: seq<byte>, a': seq<byte>, f: Format, blocks: seq<seq<byte>>, blk: seq<byte>,
                 w: nat, h: nat, bx: nat, by': nat, k: nat)
    requires |a| == w * h * 4 && |a'| == w * h * 4
    requires WholeBlocks(f, blocks) && |blk| == BlockSize(f)
    requires Shows(a, f, blocks, w, h)
    requires BlockWritten(a', a, w, h, bx, by', f, blk, 16)
    requires k < |a'| && w > 0
    requires InBlock(k, w, bx, by') <==> BlockIndexOf(k, w) == |blocks|
    requires BlockIndexOf(k, w) == |blocks|
    ensures WholeBlocks(f, blocks + [blk])
    ensures a'[k] == PartialByte(f, blocks + [blk], w, k)
  {
    assert WholeBlocks(f, blocks + [blk]);
    assert (blocks + [blk])[|blocks|] == blk;
  }

  /** A byte outside the block just painted keeps what it showed. */
  lemma OldCell(a: seq<byte>, a': seq<byte>, f: Format, blocks: seq<seq<byte>>, blk: seq<byte>,
                 w: nat, h: nat, bx: nat, by': nat, k: nat)
    requires |a| == w * h * 4 && |a'| == w * h * 4
    requires WholeBlocks(f, blocks) && |blk| == BlockSize(f)
    requires Shows(a, f, blocks, w, h)
    requires BlockWritten(a', a, w, h, bx, by', f, blk, 16)
    requires k < |a'| && w > 0
    requires InBlock(k, w, bx, by') <==> BlockIndexOf(k, w) == |blocks|
    requires BlockIndexOf(k, w) != |blocks|
    ensures WholeBlocks(f, blocks + [blk])
    ensures a'[k] == PartialByte(f, blocks + [blk], w, k)
  {
    assert WholeBlocks(f, blocks + [blk]);
    assert !InBlock(k, w, bx, by');
    assert a'[k] == a[k] == PartialByte(f, blocks, w, k);
    if BlockIndexOf(k, w) < |blocks| {
      assert (blocks + [blk])[BlockIndexOf(k, w)] == blocks[BlockIndexOf(k, w)];
    }
  }

  /**
   * Once the bytes from p0 to p are every block of the grid, and the buffer
   * shows them all decoded, the buffer is the decoded image of the bytes from p0.
   */
  lemma GridComplete(a: seq<byte>, f: Format, data: seq<byte>, p0: nat, p: nat, src: seq<byte>, w: nat, h: nat)
    requires p0 <= p <= |data| && p == p0 + RequiredBytes(f, w, h) && src == data[p0..]
    requires Shows(a, f, Blocks(f, data[p0..p]), w, h)
    ensures RequiredBytes(f, w, h) <= |src|
    ensures a == ImageSpec(f, src, w, h)
  {
    var s := data[p0..p];
    forall k | 0 <= k < |a|
      ensures a[k] == ImageSpec(f, src, w, h)[k]
    {
      BlockOfByte(f, data, p0, p, w, h, k);
      assert a[k] == PartialByte(f, Blocks(f, s), w, k);
    }
  }

  /** Byte k of the image comes from block number BlockIndexOf(k, w) of the bytes from p0. */
  lemma BlockOfByte(f: Format, data: seq<byte>, p0: nat, p: nat, w: nat, h: nat, k: nat)
    requires p0 <= p <= |data| && p == p0 + RequiredBytes(f, w, h)
    requires k < w * h * 4
    ensures w > 0 && RequiredBytes(f, w, h) <= |data[p0..]|
    ensures BlockIndexOf(k, w) < |Blocks(f, data[p0..p])|
    ensures (BlockIndexOf(k, w) + 1) * BlockSize(f) <= |data[p0..]|
    ensures BlockBytes(data[p0..], f, BlockIndexOf(k, w)) == Blocks(f, data[p0..p])[BlockIndexOf(k, w)]
  {
    var size := BlockSize(f);
    var s, src := data[p0..p], data[p0..];
    BlockIndexInGrid(k, w, h);
    var m := BlockIndexOf(k, w);
    BlockInSource(f, w, h, m);
    BlocksIndex(f, s, m, m * size);
    PrefixSlice(data, p0, p, m * size, m * size + size);
    assert BlockBytes(src, f, m) == src[m * size..m * size + size];
  }

  /** A slice of the bytes from p0 to p is the same slice of all the bytes from p0. */
  lemma PrefixSlice(data: seq<byte>, p0: nat, p: nat, i: nat, j: nat)
    requires p0 <= p <= |data| && i <= j <= p - p0
    ensures data[p0..p][i..j] == data[p0..][i..j]
  {
    SubSlice(data, p0, p, i, j);
    SubSlice(data, p0, |data|, i, j);
  }
}
