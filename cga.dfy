/**
 * c/cga.c: the CGA 16-colour palette. Four TTL bits (intensity, red,
 * green, blue) pack into a 4-bit RGBI value, which maps to a 24-bit
 * RGB colour with an optional dark-yellow-to-brown substitution.
 */
module Cga {
  type u8 = bv8
  type u32 = bv32

  /** cga_rgbi_bits_to_rgbi4: intensity, red, green and blue become bits 3, 2, 1 and 0. */
  function RgbiBitsToRgbi4(r: bool, g: bool, b: bool, i: bool): (rgbi4: u8)
    ensures rgbi4 < 16
    ensures (rgbi4 & 8 != 0) == i && (rgbi4 & 4 != 0) == r
    ensures (rgbi4 & 2 != 0) == g && (rgbi4 & 1 != 0) == b
  {
    0x00
      | (if i then 1 << 3 else 0)
      | (if r then 1 << 2 else 0)
      | (if g then 1 << 1 else 0)
      | (if b then 1 << 0 else 0)
  }

  /** The assertion every extractor makes: only the low four bits may be set. */
  predicate IsRgbi4(rgbi4: u8)
  {
    0x0F & rgbi4 == rgbi4
  }

  /** cga_rgbi4_to_intensity: bit 3: set exactly for 8 .. 15. */
  function Intensity(rgbi4: u8): (on: bool)
    requires IsRgbi4(rgbi4)
    ensures on <==> rgbi4 as int >= 8
  {
    rgbi4 & 8 != 0
  }

  /** cga_rgbi4_to_red: bit 2: set exactly when the value mod 8 is at least 4. */
  function Red(rgbi4: u8): (on: bool)
    requires IsRgbi4(rgbi4)
    ensures on <==> rgbi4 as int % 8 >= 4
  {
    rgbi4 & 4 != 0
  }

  /** cga_rgbi4_to_green: bit 1: set exactly when the value mod 4 is at least 2. */
  function Green(rgbi4: u8): (on: bool)
    requires IsRgbi4(rgbi4)
    ensures on <==> rgbi4 as int % 4 >= 2
  {
    rgbi4 & 2 != 0
  }

  /** cga_rgbi4_to_blue: bit 0: set exactly for odd values. */
  function Blue(rgbi4: u8): (on: bool)
    requires IsRgbi4(rgbi4)
    ensures on <==> rgbi4 as int % 2 == 1
  {
    rgbi4 & 1 != 0
  }

  /** cga_check_round_trip: repacking the four extracted bits gives back the value. */
  lemma Rgbi4RoundTrip(rgbi4: u8)
    requires IsRgbi4(rgbi4)
    ensures RgbiBitsToRgbi4(Red(rgbi4), Green(rgbi4), Blue(rgbi4), Intensity(rgbi4)) == rgbi4
  {
  }

  /** Exactly the values below 16 are valid RGBI values, so every packed value can be taken apart again. */
  lemma IsRgbi4IffBelow16(rgbi4: u8)
    ensures IsRgbi4(rgbi4) <==> rgbi4 < 16
  {
  }

  /** The level of one channel: 0xFF or 0x55 with intensity, 0xAA or 0x00 without, for the bit on or off. */
  function ChannelLevel(on: bool, intensity: bool): (level: u32)
    ensures level <= 0xFF
  {
    var setLevel: u32 := if intensity then 0xFF else 0xAA;
    var off: u32 := if intensity then 0x55 else 0x00;
    if on then setLevel else off
  }

  /** The red, green and blue bytes of a 24-bit colour. */
  function RedOf(rgb24: u32): u32 { (rgb24 >> 16) & 0xFF }
  function GreenOf(rgb24: u32): u32 { (rgb24 >> 8) & 0xFF }
  function BlueOf(rgb24: u32): u32 { rgb24 & 0xFF }

  /** The colour cga_rgbi4_to_rgb24 builds before the brown substitution. */
  function PlainRgb24(rgbi4: u8): (rgb24: u32)
    requires IsRgbi4(rgbi4)
    ensures rgb24 < 0x100_0000
    ensures RedOf(rgb24) == ChannelLevel(Red(rgbi4), Intensity(rgbi4))
    ensures GreenOf(rgb24) == ChannelLevel(Green(rgbi4), Intensity(rgbi4))
    ensures BlueOf(rgb24) == ChannelLevel(Blue(rgbi4), Intensity(rgbi4))
  {
    var i := Intensity(rgbi4);
    (ChannelLevel(Red(rgbi4), i) << (2 * 8))
      | (ChannelLevel(Green(rgbi4), i) << (1 * 8))
      | (ChannelLevel(Blue(rgbi4), i) << (0 * 8))
  }

  /** cga_rgbi4_to_rgb24: the plain colour, with dark yellow 0xAAAA00 replaced by brown 0xAA5500 when asked. */
  function Rgb24(rgbi4: u8, darkYellowToBrown: bool): (rgb24: u32)
    requires IsRgbi4(rgbi4)
    ensures rgb24 < 0x100_0000
    ensures rgb24 == if darkYellowToBrown && PlainRgb24(rgbi4) == 0xAAAA00 then 0xAA5500 else PlainRgb24(rgbi4)
  {
    var rgb24 := PlainRgb24(rgbi4);
    if darkYellowToBrown && rgb24 == 0xAAAA00 then 0xAA5500 else rgb24
  }

  /** The substitution changes only colour 6 (dark yellow), and only when the flag is set. */
  lemma BrownOnlyReplacesDarkYellow(rgbi4: u8, darkYellowToBrown: bool)
    requires IsRgbi4(rgbi4)
    ensures Rgb24(rgbi4, darkYellowToBrown) != Rgb24(rgbi4, false) <==> darkYellowToBrown && rgbi4 == 6
    ensures rgbi4 == 6 ==> Rgb24(rgbi4, false) == 0xAAAA00 && Rgb24(rgbi4, true) == 0xAA5500
  {
  }

  /** The sixteen plain colours are pairwise distinct. */
  lemma PaletteDistinct(x: u8, y: u8)
    requires IsRgbi4(x) && IsRgbi4(y)
    requires PlainRgb24(x) == PlainRgb24(y)
    ensures x == y
  {
    assert Red(x) == Red(y) by {
      assert RedOf(PlainRgb24(x)) == RedOf(PlainRgb24(y));
    }
    assert Green(x) == Green(y) && Blue(x) == Blue(y) && Intensity(x) == Intensity(y) by {
      assert GreenOf(PlainRgb24(x)) == GreenOf(PlainRgb24(y));
      assert BlueOf(PlainRgb24(x)) == BlueOf(PlainRgb24(y));
    }
    Rgbi4RoundTrip(x);
    Rgbi4RoundTrip(y);
  }

  /** The 17 colours cga_name24 knows: the 16 plain colours and brown. */
  const PaletteColours: set<u32> := {
    0x000000, 0x0000AA, 0x00AA00, 0x00AAAA, 0xAA0000, 0xAA00AA, 0xAAAA00, 0xAA5500, 0xAAAAAA,
    0x555555, 0x5555FF, 0x55FF55, 0x55FFFF, 0xFF5555, 0xFF55FF, 0xFFFF55, 0xFFFFFF
  }

  /** cga_name24: the common English name of a palette colour, "" for any other value. */
  function Name24(rgb24: u32): (name: string)
    ensures name != "" <==> rgb24 in PaletteColours
  {
    match rgb24
    case 0x000000 => "black"
    case 0x0000AA => "blue"
    case 0x00AA00 => "green"
    case 0x00AAAA => "cyan"
    case 0xAA0000 => "red"
    case 0xAA00AA => "magenta"
    case 0xAAAA00 => "dark yellow"
    case 0xAA5500 => "brown"
    case 0xAAAAAA => "light gray"
    case 0x555555 => "dark gray"
    case 0x5555FF => "light blue"
    case 0x55FF55 => "light green"
    case 0x55FFFF => "light cyan"
    case 0xFF5555 => "light red"
    case 0xFF55FF => "light magenta"
    case 0xFFFF55 => "yellow"
    case 0xFFFFFF => "white"
    case _ => ""
  }

  /** Every colour cga_rgbi4_to_rgb24 produces, with or without the substitution, has a name. */
  lemma EveryOutputNamed(rgbi4: u8, darkYellowToBrown: bool)
    requires IsRgbi4(rgbi4)
    ensures Rgb24(rgbi4, darkYellowToBrown) in PaletteColours
    ensures Name24(Rgb24(rgbi4, darkYellowToBrown)) != ""
  {
    var c := Rgb24(rgbi4, darkYellowToBrown);
    if rgbi4 < 8 {
      if rgbi4 == 0 { assert c == 0x000000; } else if rgbi4 == 1 { assert c == 0x0000AA; }
      else if rgbi4 == 2 { assert c == 0x00AA00; } else if rgbi4 == 3 { assert c == 0x00AAAA; }
      else if rgbi4 == 4 { assert c == 0xAA0000; } else if rgbi4 == 5 { assert c == 0xAA00AA; }
      else if rgbi4 == 6 { assert c == 0xAAAA00 || c == 0xAA5500; } else { assert c == 0xAAAAAA; }
    } else {
      if rgbi4 == 8 { assert c == 0x555555; } else if rgbi4 == 9 { assert c == 0x5555FF; }
      else if rgbi4 == 10 { assert c == 0x55FF55; } else if rgbi4 == 11 { assert c == 0x55FFFF; }
      else if rgbi4 == 12 { assert c == 0xFF5555; } else if rgbi4 == 13 { assert c == 0xFF55FF; }
      else if rgbi4 == 14 { assert c == 0xFFFF55; } else { assert c == 0xFFFFFF; }
    }
  }
}
