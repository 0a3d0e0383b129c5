/**
 * Geometry of the output image: a row-major RGBA8 buffer of `w * h * 4`
 * bytes, covered by a grid of 4x4 blocks, `BlockCount(w)` blocks across and
 * `BlockCount(h)` down, visited row by row. Byte `k` of the buffer is channel
 * `k % 4` of pixel `k / 4`, which is column `(k / 4) % w` and row `(k / 4) / w`.
 */
module Layout {
  import opened Bits

  /** `(n + 3) / 4`: the number of 4-texel blocks needed to cover `n` pixels. */
  function BlockCount(n: nat): (c: nat)
    ensures 4 * c >= n && 4 * c < n + 4
  {
    (n + 3) / 4
  }

  /** `((y * width) + x) << 2`: the first byte of pixel (x, y). */
  function ByteOffset(x: nat, y: nat, w: nat): (o: nat) {
    MulNat(y, w);
    (y * w + x) * 4
  }

  function PixelX(k: nat, w: nat): (x: nat)
    requires w > 0
  {
    (k / 4) % w
  }

  function PixelY(k: nat, w: nat): (y: nat)
    requires w > 0
  {
    (k / 4) / w
  }

  /** Byte `k` belongs to a pixel of block (blockX, blockY). */
  predicate InBlock(k: nat, w: nat, blockX: nat, blockY: nat)
    requires w > 0
  {
    PixelX(k, w) / 4 == blockX && PixelY(k, w) / 4 == blockY
  }

  /** The row-major number of the block holding pixel (x, y). */
  function BlockAt(x: nat, y: nat, w: nat): (n: nat) {
    MulNat(y / 4, BlockCount(w));
    (y / 4) * BlockCount(w) + x / 4
  }

  /** The position of pixel (x, y) inside its block, in row-major order. */
  function TexelAt(x: nat, y: nat): (t: nat)
    ensures t < 16
  {
    4 * (y % 4) + x % 4
  }

  function BlockIndexOf(k: nat, w: nat): (n: nat)
    requires w > 0
  {
    BlockAt(PixelX(k, w), PixelY(k, w), w)
  }

  function TexelOf(k: nat, w: nat): (t: nat)
    requires w > 0
  {
    TexelAt(PixelX(k, w), PixelY(k, w))
  }

  lemma NonEmptyImage(w: nat, h: nat)
    ensures w * h * 4 > 0 ==> w > 0 && h > 0
  {
  }

  /** Two-digit mixed-radix numbers are equal only digit by digit. */
  lemma RadixUnique(a: nat, b: nat, c: nat, d: nat, n: nat)
    requires b < n && d < n && a * n + b == c * n + d
    ensures a == c && b == d
  {
    DivModUnique(a * n + b, n, a, b);
    DivModUnique(c * n + d, n, c, d);
  }

  /** The four bytes at ByteOffset(x, y, w) are the channels of pixel (x, y). */
  lemma PixelOfOffset(x: nat, y: nat, w: nat, c: nat)
    requires x < w && c < 4
    ensures PixelX(ByteOffset(x, y, w) + c, w) == x
    ensures PixelY(ByteOffset(x, y, w) + c, w) == y
    ensures (ByteOffset(x, y, w) + c) % 4 == c
  {
    MulNat(y, w);
    var p := y * w + x;
    DivModUnique(p * 4 + c, 4, p, c);
    DivModUnique(p, w, y, x);
  }

  /** A pixel inside the image has all four of its bytes inside the buffer. */
  lemma OffsetInImage(x: nat, y: nat, w: nat, h: nat, c: nat)
    requires x < w && y < h && c < 4
    ensures ByteOffset(x, y, w) + c < w * h * 4
  {
    MulLe(y + 1, h, w);
  }

  /** The bytes of pixel (x, y) belong to block BlockAt(x, y, w), at texel TexelAt(x, y). */
  lemma BlockOfPixel(x: nat, y: nat, w: nat, h: nat, c: nat)
    requires x < w && y < h && c < 4
    ensures ByteOffset(x, y, w) + c < w * h * 4
    ensures BlockIndexOf(ByteOffset(x, y, w) + c, w) == BlockAt(x, y, w)
    ensures TexelOf(ByteOffset(x, y, w) + c, w) == TexelAt(x, y)
    ensures (ByteOffset(x, y, w) + c) % 4 == c
  {
    OffsetInImage(x, y, w, h, c);
    PixelOfOffset(x, y, w, c);
  }

  /** Every byte of the buffer is a channel of a pixel inside the image. */
  lemma PixelInImage(k: nat, w: nat, h: nat)
    requires k < w * h * 4
    ensures w > 0 && h > 0
    ensures PixelX(k, w) < w && PixelY(k, w) < h
    ensures k == ByteOffset(PixelX(k, w), PixelY(k, w), w) + k % 4
  {
    NonEmptyImage(w, h);
    var p := k / 4;
    assert p < w * h;
    var y := p / w;
    assert p == y * w + p % w;
    if y >= h {
      MulLe(h, y, w);
      assert false;
    }
  }

  /** Every byte of the buffer is written by a block of the grid, at one of its 16 texels. */
  lemma BlockIndexInGrid(k: nat, w: nat, h: nat)
    requires k < w * h * 4
    ensures w > 0
    ensures BlockIndexOf(k, w) < BlockCount(w) * BlockCount(h)
    ensures TexelOf(k, w) < 16
  {
    PixelInImage(k, w, h);
    PlaceBound(PixelX(k, w) / 4, PixelY(k, w) / 4, BlockCount(w), BlockCount(h));
  }

  /** Inside the grid, "in block (blockX, blockY)" and "block number blockY * BlockCount(w) + blockX" agree. */
  lemma InBlockIndex(k: nat, w: nat, blockX: nat, blockY: nat)
    requires w > 0 && blockX < BlockCount(w)
    ensures InBlock(k, w, blockX, blockY) <==> BlockIndexOf(k, w) == blockY * BlockCount(w) + blockX
  {
    if BlockIndexOf(k, w) == blockY * BlockCount(w) + blockX {
      RadixUnique(PixelY(k, w) / 4, PixelX(k, w) / 4, blockY, blockX, BlockCount(w));
    }
  }

  /** Pixel (x, y) lies in block (blockX, blockY) at texel t exactly when it is that texel's pixel. */
  lemma BlockDigits(x: nat, y: nat, blockX: nat, blockY: nat, t: nat)
    requires t < 16
    ensures (x / 4 == blockX && y / 4 == blockY && TexelAt(x, y) == t)
            <==> (x == 4 * blockX + t % 4 && y == 4 * blockY + t / 4)
  {
    if x == 4 * blockX + t % 4 && y == 4 * blockY + t / 4 {
      DivModUnique(x, 4, blockX, t % 4);
      DivModUnique(y, 4, blockY, t / 4);
    }
    if x / 4 == blockX && y / 4 == blockY && TexelAt(x, y) == t {
      DivModUnique(t, 4, y % 4, x % 4);
    }
  }

  /** Texel `t` of block (blockX, blockY) is the pixel (4 * blockX + t % 4, 4 * blockY + t / 4). */
  lemma TexelPosition(k: nat, w: nat, blockX: nat, blockY: nat, t: nat)
    requires w > 0 && t < 16
    ensures InBlock(k, w, blockX, blockY) && TexelOf(k, w) == t
            <==> PixelX(k, w) == 4 * blockX + t % 4 && PixelY(k, w) == 4 * blockY + t / 4
  {
    BlockDigits(PixelX(k, w), PixelY(k, w), blockX, blockY, t);
  }

  /** Every byte of the buffer lies in block (blockX, blockY) exactly when it lies in that block's number. */
  lemma InBlockNumber(k: nat, w: nat, h: nat, blockX: nat, blockY: nat)
    requires k < w * h * 4 && blockX < BlockCount(w)
    ensures w > 0
    ensures InBlock(k, w, blockX, blockY) <==> BlockIndexOf(k, w) == BlockCount(w) * blockY + blockX
  {
    PixelInImage(k, w, h);
    InBlockIndex(k, w, blockX, blockY);
  }

  /** The block holding an in-image pixel is one the grid loops visit. */
  lemma BlockAtInGrid(x: nat, y: nat, w: nat, h: nat)
    requires x < w && y < h
    ensures BlockAt(x, y, w) < BlockCount(w) * BlockCount(h)
  {
    PlaceBound(x / 4, y / 4, BlockCount(w), BlockCount(h));
  }

  /** Block number n holds pixel (x, y) exactly when its column and row are x / 4 and y / 4. */
  lemma BlockNumberDigits(n: nat, x: nat, y: nat, w: nat)
    requires x < w
    ensures BlockCount(w) > 0
    ensures n == BlockAt(x, y, w) <==> n % BlockCount(w) == x / 4 && n / BlockCount(w) == y / 4
  {
    var bw := BlockCount(w);
    if n == BlockAt(x, y, w) {
      DivModUnique(n, bw, y / 4, x / 4);
    }
  }

  /**
   * Each pixel (x, y) of the image is produced by exactly one (block, texel)
   * pair of the grid: block number n (column n % BlockCount(w), row
   * n / BlockCount(w)) places its texel t at (4 * (n % bw) + t % 4, 4 * (n / bw) + t / 4),
   * and that is (x, y) only for n = BlockAt(x, y, w) and t = TexelAt(x, y),
   * a block the grid does visit.
   */
  lemma UniqueWriter(w: nat, h: nat, x: nat, y: nat, n: nat, t: nat)
    requires x < w && y < h && t < 16
    requires n < BlockCount(w) * BlockCount(h)
    ensures BlockAt(x, y, w) < BlockCount(w) * BlockCount(h)
    ensures var bw := BlockCount(w);
            (4 * (n % bw) + t % 4 == x && 4 * (n / bw) + t / 4 == y)
            <==> (n == BlockAt(x, y, w) && t == TexelAt(x, y))
  {
    BlockAtInGrid(x, y, w, h);
    BlockNumberDigits(n, x, y, w);
    var bw := BlockCount(w);
    BlockDigits(x, y, n % bw, n / bw, t);
  }
}
