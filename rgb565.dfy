/**
 * Endpoint expansion: a 16-bit RGB565 colour (red in bits 11..15, green in
 * bits 5..10, blue in bits 0..4) becomes three 8-bit channels.
 *
 * The source does not replicate bits; it scales each field with a two-step
 * integer division. The result is the exact scaled value `v * 255 / max`
 * rounded down or up (it is not always the nearest integer).
 */
module Rgb565 {
  import opened Bits

  datatype Rgb = Rgb(r: byte, g: byte, b: byte)

  /** A 5-bit field scaled to 0..255: `n = v * 255 + 16; (n / 32 + n) / 32`. */
  function Expand5(v: nat): (c: byte)
    requires v < 32
    ensures 31 * c - 31 < 255 * v < 31 * c + 31
  {
    var n := v * 255 + 16;
    (n / 32 + n) / 32
  }

  /** A 6-bit field scaled to 0..255: `n = v * 255 + 32; (n / 64 + n) / 64`. */
  function Expand6(v: nat): (c: byte)
    requires v < 64
    ensures 63 * c - 63 < 255 * v < 63 * c + 63
  {
    var n := v * 255 + 32;
    (n / 64 + n) / 64
  }

  /** The red, green and blue fields, `color >> 11`, `(color & 0x7E0) >> 5`, `color & 0x1F`. */
  function RedField(color: u16): (v: nat)
    ensures v < 32
  {
    color / 0x800
  }

  function GreenField(color: u16): (v: nat)
    ensures v < 64
  {
    (color / 0x20) % 0x40
  }

  function BlueField(color: u16): (v: nat)
    ensures v < 32
  {
    color % 0x20
  }

  function ConvertRgb565ToRgb888(color: u16): (c: Rgb)
    ensures 31 * c.r - 31 < 255 * RedField(color) < 31 * c.r + 31
    ensures 63 * c.g - 63 < 255 * GreenField(color) < 63 * c.g + 63
    ensures 31 * c.b - 31 < 255 * BlueField(color) < 31 * c.b + 31
  {
    Rgb(Expand5(RedField(color)), Expand6(GreenField(color)), Expand5(BlueField(color)))
  }

  /** The reference points: black stays black and white becomes full white. */
  lemma ConvertBlackAndWhite()
    ensures ConvertRgb565ToRgb888(0x0000) == Rgb(0, 0, 0)
    ensures ConvertRgb565ToRgb888(0xFFFF) == Rgb(255, 255, 255)
  {
    FieldsOfRgb565(0, 0, 0);
    FieldsOfRgb565(31, 63, 31);
  }

  /** The fields sit where RGB565 puts them: red on top, blue at the bottom. */
  lemma FieldsOfRgb565(red: nat, green: nat, blue: nat)
    requires red < 32 && green < 64 && blue < 32
    ensures RedField(red * 2048 + green * 32 + blue) == red
    ensures GreenField(red * 2048 + green * 32 + blue) == green
    ensures BlueField(red * 2048 + green * 32 + blue) == blue
  {
    var color := red * 2048 + green * 32 + blue;
    DivModUnique(color, 2048, red, green * 32 + blue);
    DivModUnique(color, 32, red * 64 + green, blue);
    DivModUnique(red * 64 + green, 64, red, green);
    DivModUnique(blue, 32, 0, blue);
  }

  /** Expansion is strictly increasing, so distinct fields never collapse to one channel value. */
  lemma ExpandStrictlyIncreasing(v: nat, v': nat)
    requires v < v'
    ensures v' < 32 ==> Expand5(v) < Expand5(v')
    ensures v' < 64 ==> Expand6(v) < Expand6(v')
  {
  }

  /**
   * Converting a colour whose red (or green, or blue) field is larger gives a
   * larger channel and leaves the other two channels as they were.
   */
  lemma ConvertMonotone(red: nat, green: nat, blue: nat, red': nat, green': nat, blue': nat)
    requires red <= red' < 32 && green <= green' < 64 && blue <= blue' < 32
    ensures var c := ConvertRgb565ToRgb888(red * 2048 + green * 32 + blue);
            var c' := ConvertRgb565ToRgb888(red' * 2048 + green' * 32 + blue');
            && c.r <= c'.r && (red < red' ==> c.r < c'.r) && (red == red' ==> c.r == c'.r)
            && c.g <= c'.g && (green < green' ==> c.g < c'.g) && (green == green' ==> c.g == c'.g)
            && c.b <= c'.b && (blue < blue' ==> c.b < c'.b) && (blue == blue' ==> c.b == c'.b)
  {
    FieldsOfRgb565(red, green, blue);
    FieldsOfRgb565(red', green', blue');
    if red < red' { ExpandStrictlyIncreasing(red, red'); }
    if green < green' { ExpandStrictlyIncreasing(green, green'); }
    if blue < blue' { ExpandStrictlyIncreasing(blue, blue'); }
  }
}
