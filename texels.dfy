/**
 * Per-texel selection for the three S3TC block formats: the colour palette
 * built from two RGB565 endpoints, the 2-bit colour index, the explicit 4-bit
 * alpha of BC2 (DXT3) and the interpolated 3-bit alpha of BC3 (DXT5).
 *
 * A block holds 16 texels in row-major order; texel `t` is row `t / 4`,
 * column `t % 4`.
 */
module Texels {
  import opened Bits
  import opened Rgb565

  datatype Rgba = Rgba(r: byte, g: byte, b: byte, a: byte)

  predicate Between(x: int, e0: int, e1: int) {
    (e0 <= x <= e1) || (e1 <= x <= e0)
  }

  predicate RgbBetween(c: Rgb, e0: Rgb, e1: Rgb) {
    Between(c.r, e0.r, e1.r) && Between(c.g, e0.g, e1.g) && Between(c.b, e0.b, e1.b)
  }

  /**
   * `(w0 * e0 + w1 * e1) / (w0 + w1)` with truncating division, the interpolation
   * every palette entry and alpha level uses; the `(byte)` cast of the source
   * never wraps because the result lies between the two endpoints.
   */
  function Blend(e0: byte, e1: byte, w0: nat, w1: nat): (r: byte)
    requires w0 + w1 > 0
  {
    AverageBetween(e0, e1, w0, w1);
    (w0 * e0 + w1 * e1) / (w0 + w1)
  }

  /** A truncated weighted average of two bytes lies between them. */
  lemma AverageBetween(e0: byte, e1: byte, w0: nat, w1: nat)
    requires w0 + w1 > 0
    ensures Between((w0 * e0 + w1 * e1) / (w0 + w1), e0, e1)
  {
    var lo, hi := if e0 <= e1 then e0 else e1, if e0 <= e1 then e1 else e0;
    MulLe(lo, e0, w0);
    MulLe(lo, e1, w1);
    MulLe(e0, hi, w0);
    MulLe(e1, hi, w1);
    DivBetween(w0 * e0 + w1 * e1, w0 + w1, lo, hi);
  }

  /** The interpolation never leaves the interval between the two endpoints. */
  lemma BlendBetween(e0: byte, e1: byte, w0: nat, w1: nat)
    requires w0 + w1 > 0
    ensures Between(Blend(e0, e1, w0, w1), e0, e1)
  {
    AverageBetween(e0, e1, w0, w1);
  }

  function BlendRgb(e0: Rgb, e1: Rgb, w0: nat, w1: nat): (r: Rgb)
    requires w0 + w1 > 0
  {
    Rgb(Blend(e0.r, e1.r, w0, w1), Blend(e0.g, e1.g, w0, w1), Blend(e0.b, e1.b, w0, w1))
  }

  /** Interpolating each channel keeps the colour inside the box spanned by the endpoints. */
  lemma BlendRgbBetween(e0: Rgb, e1: Rgb, w0: nat, w1: nat)
    requires w0 + w1 > 0
    ensures RgbBetween(BlendRgb(e0, e1, w0, w1), e0, e1)
  {
    BlendBetween(e0.r, e1.r, w0, w1);
    BlendBetween(e0.g, e1.g, w0, w1);
    BlendBetween(e0.b, e1.b, w0, w1);
  }

  /**
   * `(word >> 2 * t) & 3`: the 2-bit colour index of texel `t`, the word being
   * shifted right two bits per texel.
   */
  function ColorIndex(word: nat, t: nat): (i: nat)
    ensures i < 4
  {
    if t == 0 then word % 4 else ColorIndex(word / 4, t - 1)
  }

  /** `(field >> 3 * t) & 7`: the 3-bit alpha index of texel `t` in BC3's 48-bit field. */
  function AlphaIndex(field: nat, t: nat): (i: nat)
    ensures i < 8
  {
    if t == 0 then field % 8 else AlphaIndex(field / 8, t - 1)
  }

  /** Shifting two bits at a time, t times, reads the field at bit 2t. */
  lemma {:induction false} ColorIndexIsBitField(word: nat, t: nat)
    ensures ColorIndex(word, t) == BitField(word, 2 * t, 2)
  {
    Pow2Values();
    if t > 0 {
      ColorIndexIsBitField(word / 4, t - 1);
      Pow2Add(2, 2 * (t - 1));
      assert 2 + 2 * (t - 1) == 2 * t;
      DivDiv(word, 4, Pow2(2 * (t - 1)));
    }
  }

  /** Shifting three bits at a time, t times, reads the field at bit 3t. */
  lemma {:induction false} AlphaIndexIsBitField(field: nat, t: nat)
    ensures AlphaIndex(field, t) == BitField(field, 3 * t, 3)
  {
    Pow2Values();
    if t > 0 {
      AlphaIndexIsBitField(field / 8, t - 1);
      Pow2Add(3, 3 * (t - 1));
      assert 3 + 3 * (t - 1) == 3 * t;
      DivDiv(field, 8, Pow2(3 * (t - 1)));
    }
  }

  /** Indices packed two bits per texel, texel 0 lowest, come back out of ColorIndex. */
  lemma ColorIndexOfPacked(indices: seq<nat>, t: nat)
    requires |indices| == 16 && forall i :: 0 <= i < 16 ==> indices[i] < 4
    requires t < 16
    ensures Pack(indices, 2) < 0x1_0000_0000
    ensures ColorIndex(Pack(indices, 2), t) == indices[t]
  {
    Pow2Values();
    PackBound(indices, 2);
    UnpackPack(indices, 2, t);
    ColorIndexIsBitField(Pack(indices, 2), t);
  }

  /** Indices packed three bits per texel, texel 0 lowest, come back out of AlphaIndex. */
  lemma AlphaIndexOfPacked(indices: seq<nat>, t: nat)
    requires |indices| == 16 && forall i :: 0 <= i < 16 ==> indices[i] < 8
    requires t < 16
    ensures Pack(indices, 3) < 0x1_0000_0000_0000
    ensures AlphaIndex(Pack(indices, 3), t) == indices[t]
  {
    Pow2Values();
    PackBound(indices, 3);
    UnpackPack(indices, 3, t);
    AlphaIndexIsBitField(Pack(indices, 3), t);
  }

  /**
   * The four-colour palette: the endpoints, then the points one third and two
   * thirds of the way from `e0` to `e1`. BC1 uses it when color0 > color1;
   * the colour sub-blocks of BC2 and BC3 always use it.
   */
  function FourColor(e0: Rgb, e1: Rgb, idx: nat): (c: Rgb)
    requires idx < 4
  {
    match idx
    case 0 => e0
    case 1 => e1
    case 2 => BlendRgb(e0, e1, 2, 1)
    case 3 => BlendRgb(e0, e1, 1, 2)
  }

  /** Indices 0 and 1 are the endpoints; every entry lies between them. */
  lemma FourColorPalette(e0: Rgb, e1: Rgb, idx: nat)
    requires idx < 4
    ensures idx == 0 ==> FourColor(e0, e1, idx) == e0
    ensures idx == 1 ==> FourColor(e0, e1, idx) == e1
    ensures RgbBetween(FourColor(e0, e1, idx), e0, e1)
  {
    if idx == 2 {
      BlendRgbBetween(e0, e1, 2, 1);
    } else if idx == 3 {
      BlendRgbBetween(e0, e1, 1, 2);
    }
  }

  /**
   * A BC1 texel. With color0 > color1 the palette is FourColor and every texel
   * is opaque; otherwise index 2 is the midpoint and index 3 is transparent black.
   */
  function Bc1Texel(color0: u16, color1: u16, idx: nat): (t: Rgba)
    requires idx < 4
  {
    var e0, e1 := ConvertRgb565ToRgb888(color0), ConvertRgb565ToRgb888(color1);
    if color0 > color1 then
      var c := FourColor(e0, e1, idx);
      Rgba(c.r, c.g, c.b, 255)
    else
      match idx
      case 0 => Rgba(e0.r, e0.g, e0.b, 255)
      case 1 => Rgba(e1.r, e1.g, e1.b, 255)
      case 2 =>
        var c := BlendRgb(e0, e1, 1, 1);
        Rgba(c.r, c.g, c.b, 255)
      case 3 => Rgba(0, 0, 0, 0)
  }

  /**
   * A BC1 texel is transparent black exactly for index 3 in three-colour mode
   * (color0 <= color1); every other texel is opaque, with a colour between
   * the two endpoints.
   */
  lemma Bc1TexelPalette(color0: u16, color1: u16, idx: nat)
    requires idx < 4
    ensures var t := Bc1Texel(color0, color1, idx);
            && (t.a == 0 <==> color0 <= color1 && idx == 3)
            && (t.a == 0 || t.a == 255)
            && (t.a == 0 ==> t == Rgba(0, 0, 0, 0))
            && (t.a == 255 ==> RgbBetween(Rgb(t.r, t.g, t.b),
                                          ConvertRgb565ToRgb888(color0), ConvertRgb565ToRgb888(color1)))
  {
    var e0, e1 := ConvertRgb565ToRgb888(color0), ConvertRgb565ToRgb888(color1);
    if color0 > color1 {
      FourColorPalette(e0, e1, idx);
    } else if idx == 2 {
      BlendRgbBetween(e0, e1, 1, 1);
    }
  }

  /**
   * BC2 alpha of texel `k`: nibble `k` of the eight alpha bytes (the low nibble
   * of byte k/2 for even k, the high nibble for odd k), copied into both
   * halves of the byte: `(n & 0xF) | (n << 4)` and `(h & 0xF0) | (h >> 4)`.
   */
  function Bc2Alpha(alpha: seq<byte>, k: nat): (a: byte)
    requires |alpha| == 8 && k < 16
  {
    var b := alpha[k / 2];
    if k % 2 == 0 then
      var low := b % 0x10;
      low + low * 0x10
    else
      var high := b / 0x10;
      high * 0x10 + high
  }

  /** Nibble `k` of the little-endian alpha word is nibble `k % 2` of byte `k / 2`. */
  lemma AlphaWordNibble(alpha: seq<byte>, k: nat)
    requires |alpha| == 8 && k < 16
    ensures BitField(LittleEndian(alpha), 4 * k, 4) == BitField(alpha[k / 2], 4 * (k % 2), 4)
  {
    BitFieldOfPack(alpha, 8, k / 2, 4 * (k % 2), 4);
    assert 8 * (k / 2) + 4 * (k % 2) == 4 * k;
  }

  /** The low nibble of a byte is `b % 16`, the high one `b / 16`. */
  lemma ByteNibble(b: byte, half: nat)
    requires half < 2
    ensures BitField(b, 4 * half, 4) == if half == 0 then b % 16 else b / 16
  {
    assert Pow2(0) == 1 && Pow2(4) == 16;
    if half == 1 {
      assert b / 16 < 16;
    }
  }

  /** The BC2 alpha of texel `k` is nibble `k` of the alpha word, repeated in both halves of the byte. */
  lemma Bc2AlphaNibble(alpha: seq<byte>, k: nat)
    requires |alpha| == 8 && k < 16
    ensures Bc2Alpha(alpha, k) == 17 * BitField(LittleEndian(alpha), 4 * k, 4)
    ensures Bc2Alpha(alpha, k) / 16 == Bc2Alpha(alpha, k) % 16
  {
    var n := BitField(alpha[k / 2], 4 * (k % 2), 4);
    AlphaWordNibble(alpha, k);
    ByteNibble(alpha[k / 2], k % 2);
    assert n < 16 && Bc2Alpha(alpha, k) == 17 * n;
    DivModUnique(17 * n, 16, n, n);
  }

  /**
   * BC3 alpha for the 3-bit index `k`: the endpoints for 0 and 1; with
   * a0 > a1 six levels evenly spaced between them (`((8-k)*a0 + (k-1)*a1) / 7`);
   * with a0 <= a1 four levels (`((6-k)*a0 + (k-1)*a1) / 5`), then 0 and 255.
   */
  function Bc3Alpha(a0: byte, a1: byte, k: nat): (a: byte)
    requires k < 8
  {
    if k == 0 then a0
    else if k == 1 then a1
    else if a0 <= a1 then
      if k == 6 then 0
      else if k == 7 then 255
      else Blend(a0, a1, 6 - k, k - 1)
    else Blend(a0, a1, 8 - k, k - 1)
  }

  /**
   * Indices 0 and 1 are the endpoints; in six-level mode 6 and 7 are fully
   * transparent and fully opaque; every other level lies between a0 and a1.
   */
  lemma Bc3AlphaLevels(a0: byte, a1: byte, k: nat)
    requires k < 8
    ensures k == 0 ==> Bc3Alpha(a0, a1, k) == a0
    ensures k == 1 ==> Bc3Alpha(a0, a1, k) == a1
    ensures a0 <= a1 && k == 6 ==> Bc3Alpha(a0, a1, k) == 0
    ensures a0 <= a1 && k == 7 ==> Bc3Alpha(a0, a1, k) == 255
    ensures a0 > a1 || k < 6 ==> Between(Bc3Alpha(a0, a1, k), a0, a1)
  {
    if 2 <= k {
      if a0 > a1 {
        BlendBetween(a0, a1, 8 - k, k - 1);
      } else if k < 6 {
        BlendBetween(a0, a1, 6 - k, k - 1);
      }
    }
  }

  /** Moving one unit of weight from `e0` to `e1` moves the blend towards `e1`. */
  lemma BlendStep(e0: byte, e1: byte, w0: nat, w1: nat)
    requires w0 >= 1
    ensures e0 >= e1 ==> Blend(e0, e1, w0 - 1, w1 + 1) <= Blend(e0, e1, w0, w1)
    ensures e0 <= e1 ==> Blend(e0, e1, w0 - 1, w1 + 1) >= Blend(e0, e1, w0, w1)
  {
    var n, n' := w0 * e0 + w1 * e1, (w0 - 1) * e0 + (w1 + 1) * e1;
    assert n' == n - e0 + e1;
    if e0 >= e1 {
      DivMonotone(n', n, w0 + w1);
    }
    if e0 <= e1 {
      DivMonotone(n, n', w0 + w1);
    }
  }

  /** The eight BC3 levels in palette order when a0 > a1: a0, indices 2..7, then a1. */
  const Ramp8: seq<nat> := [0, 2, 3, 4, 5, 6, 7, 1]

  /** The six interpolated BC3 levels in palette order when a0 <= a1: a0, indices 2..5, then a1. */
  const Ramp6: seq<nat> := [0, 2, 3, 4, 5, 1]

  lemma Ramp8Adjacent(a0: byte, a1: byte, p: nat)
    requires a0 > a1 && p < 7
    ensures Bc3Alpha(a0, a1, Ramp8[p + 1]) <= Bc3Alpha(a0, a1, Ramp8[p])
  {
    if 1 <= p < 6 {
      var k := Ramp8[p];
      assert k == p + 1 && Ramp8[p + 1] == k + 1;
      BlendStep(a0, a1, 8 - k, k - 1);
    }
  }

  lemma Ramp6Adjacent(a0: byte, a1: byte, p: nat)
    requires a0 <= a1 && p < 5
    ensures Bc3Alpha(a0, a1, Ramp6[p]) <= Bc3Alpha(a0, a1, Ramp6[p + 1])
  {
    if 1 <= p < 4 {
      var k := Ramp6[p];
      assert k == p + 1 && Ramp6[p + 1] == k + 1;
      BlendStep(a0, a1, 6 - k, k - 1);
    }
  }

  /** With a0 > a1 the eight alpha levels fall monotonically from a0 to a1. */
  lemma {:induction false} Bc3EightLevelsDescend(a0: byte, a1: byte, p: nat, q: nat)
    requires a0 > a1 && p <= q < 8
    ensures Bc3Alpha(a0, a1, Ramp8[q]) <= Bc3Alpha(a0, a1, Ramp8[p])
    decreases q - p
  {
    if p < q {
      Ramp8Adjacent(a0, a1, p);
      Bc3EightLevelsDescend(a0, a1, p + 1, q);
    }
  }

  /**
   * With a0 <= a1 the six interpolated levels rise monotonically from a0 to
   * a1. The bounds by indices 6 and 7 only restate the byte range: those two
   * levels are the constants 0 and 255.
   */
  lemma {:induction false} Bc3SixLevelsAscend(a0: byte, a1: byte, p: nat, q: nat)
    requires a0 <= a1 && p <= q < 6
    ensures Bc3Alpha(a0, a1, 6) <= Bc3Alpha(a0, a1, Ramp6[p]) <= Bc3Alpha(a0, a1, Ramp6[q])
    ensures Bc3Alpha(a0, a1, Ramp6[q]) <= Bc3Alpha(a0, a1, 7)
    decreases q - p
  {
    if p < q {
      Ramp6Adjacent(a0, a1, p);
      Bc3SixLevelsAscend(a0, a1, p + 1, q);
    }
  }

  // The fields of a block, read little-endian from its bytes.

  /** Texel `t` of an 8-byte BC1 block: color0, color1, then the index word. */
  function Bc1BlockTexel(blk: seq<byte>, t: nat): (p: Rgba)
    requires |blk| == 8 && t < 16
  {
    Bc1Texel(U16At(blk, 0), U16At(blk, 2), ColorIndex(U32At(blk, 4), t))
  }

  /** The colour of texel `t` in the colour sub-block at `o`, always four-colour. */
  function SubBlockColor(blk: seq<byte>, o: nat, t: nat): (c: Rgb)
    requires o + 8 <= |blk| && t < 16
  {
    FourColor(ConvertRgb565ToRgb888(U16At(blk, o)), ConvertRgb565ToRgb888(U16At(blk, o + 2)),
              ColorIndex(U32At(blk, o + 4), t))
  }

  /** Texel `t` of a 16-byte BC2 block: eight alpha bytes, then a colour sub-block. */
  function Bc2BlockTexel(blk: seq<byte>, t: nat): (p: Rgba)
    requires |blk| == 16 && t < 16
  {
    var c := SubBlockColor(blk, 8, t);
    Rgba(c.r, c.g, c.b, Bc2Alpha(blk[0..8], t))
  }

  /** Texel `t` of a 16-byte BC3 block: a0, a1, the 48-bit index field, then a colour sub-block. */
  function Bc3BlockTexel(blk: seq<byte>, t: nat): (p: Rgba)
    requires |blk| == 16 && t < 16
  {
    var c := SubBlockColor(blk, 8, t);
    Rgba(c.r, c.g, c.b, Bc3Alpha(blk[0], blk[1], AlphaIndex(U48At(blk, 2), t)))
  }

  /** Index 0 always selects color0, opaque, in either BC1 mode. */
  lemma Bc1IndexZero(color0: u16, color1: u16)
    ensures var e0 := ConvertRgb565ToRgb888(color0);
            Bc1Texel(color0, color1, 0) == Rgba(e0.r, e0.g, e0.b, 255)
  {
  }

  /** An all-white opaque BC1 block with every index 0 decodes to opaque white. */
  lemma WhiteBc1Block(t: nat)
    requires t < 16
    ensures Bc1BlockTexel([0xFF, 0xFF, 0x00, 0x00, 0x00, 0x00, 0x00, 0x00], t) == Rgba(255, 255, 255, 255)
  {
    var blk: seq<byte> := [0xFF, 0xFF, 0x00, 0x00, 0x00, 0x00, 0x00, 0x00];
    assert U16At(blk, 0) == 0xFFFF && U16At(blk, 2) == 0 && U32At(blk, 4) == 0;
    assert ColorIndex(0, t) == 0 by {
      ColorIndexIsBitField(0, t);
    }
    assert Bc1Texel(0xFFFF, 0, 0) == Rgba(255, 255, 255, 255) by {
      Bc1IndexZero(0xFFFF, 0);
      ConvertBlackAndWhite();
    }
  }

  /**
   * A block whose color0 does not exceed its color1 (three-colour mode) and
   * whose index word is all ones (every index 3) decodes to transparent black.
   */
  lemma TransparentBc1Block(blk: seq<byte>, t: nat)
    requires |blk| == 8 && U16At(blk, 0) <= U16At(blk, 2) && U32At(blk, 4) == 0xFFFF_FFFF && t < 16
    ensures Bc1BlockTexel(blk, t) == Rgba(0, 0, 0, 0)
  {
    assert ColorIndex(0xFFFF_FFFF, t) == 3 by {
      Pow2Values();
      ColorIndexIsBitField(0xFFFF_FFFF, t);
      BitFieldOfAllOnes(32, 2 * t, 2);
    }
  }
}
