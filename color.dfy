/**
 * The MotiColor class: a colour held both as RGB bytes and as HSV
 * (hue in degrees, saturation and value as floats), with the two setters
 * that keep one representation derived from the other, and the table of
 * named colours.
 */
module Color {
  import opened Conversion
  import IntendedConversion

  /** A colour of the robot's LEDs. */
  class MotiColor {
    var r: uint8
    var g: uint8
    var b: uint8
    var hue: uint16
    var saturation: real
    var value: real

    function GetR(): uint8
      reads this
    {
      r
    }

    function GetG(): uint8
      reads this
    {
      g
    }

    function GetB(): uint8
      reads this
    {
      b
    }

    /** getRGB: the three bytes, as one value. */
    function GetRGB(): Rgb
      reads this
    {
      Rgb(r, g, b)
    }

    function GetHue(): uint16
      reads this
    {
      hue
    }

    function GetSaturation(): real
      reads this
    {
      saturation
    }

    function GetValue(): real
      reads this
    {
      value
    }

    /** getHSV: hue, saturation and value, as one value. */
    function GetHSV(): Hsv
      reads this
    {
      Hsv(hue, saturation, value)
    }

    /**
     * The default constructor sets the three channels to 0. It never
     * writes the HSV fields, so they hold whatever they held.
     */
    constructor ()
      ensures GetRGB() == Rgb(0, 0, 0)
    {
      r, g, b := 0, 0, 0;
    }

    /** The RGB constructor stores the bytes as given; the HSV fields stay unwritten. */
    constructor FromRgb(r0: uint8, g0: uint8, b0: uint8)
      ensures GetRGB() == Rgb(r0, g0, b0)
    {
      r, g, b := r0, g0, b0;
    }

    /** The implicit copy constructor: every field of c. */
    constructor Copy(c: MotiColor)
      ensures GetRGB() == c.GetRGB() && GetHSV() == c.GetHSV()
    {
      r, g, b := c.r, c.g, c.b;
      hue, saturation, value := c.hue, c.saturation, c.value;
    }

    /** The implicit copy assignment: every field of c, also when c is this object. */
    method CopyFrom(c: MotiColor)
      modifies this
      ensures GetRGB() == old(c.GetRGB()) && GetHSV() == old(c.GetHSV())
    {
      r, g, b, hue, saturation, value := c.r, c.g, c.b, c.hue, c.saturation, c.value;
    }

    /**
     * setRGB stores the bytes unchanged and derives HSV from them: value is
     * the largest normalised channel, saturation is 0 for grey and
     * (max - min) / max otherwise, and the hue comes from the first maximal
     * channel in the order red, green, blue. For grey the red branch divides
     * 0 by 0, and the cast of that NaN to uint16_t is undefined, so the hue
     * is left unknown.
     */
    method SetRGB(r0: uint8, g0: uint8, b0: uint8)
      modifies this
      ensures GetRGB() == Rgb(r0, g0, b0)
      ensures saturation == SaturationOf(r0, g0, b0) && value == ValueOf(r0, g0, b0)
      ensures !IsGrey(r0, g0, b0) ==> hue == HueOf(r0, g0, b0)
    {
      var nr, ng, nb := Norm(r0), Norm(g0), Norm(b0);
      var cMax := Max3(nr, ng, nb);
      var cMin := Min3(nr, ng, nb);
      var delta := cMax - cMin;
      NormMax(r0, g0, b0);

      if cMax == nr {
        if delta == 0.0 {
          hue := *;
        } else {
          hue := Cast16(60.0 * Mod((ng - nb) / delta, 6.0));
        }
      } else if cMax == ng {
        QuotientInUnit(nb - nr, delta);
        hue := Cast16(60.0 * ((nb - nr) / delta + 2.0));
      } else {
        QuotientInUnit(nr - ng, delta);
        hue := Cast16(60.0 * ((nr - ng) / delta + 4.0));
      }

      if cMax == cMin {
        saturation := 0.0;
      } else {
        saturation := delta / cMax;
      }
      value := cMax;

      r, g, b := r0, g0, b0;
    }

    /**
     * setHSV stores hue, saturation and value unchanged and derives the
     * bytes with the six-sector switch on hue / 60. It is defined when the
     * three casts to uint8_t are.
     */
    method SetHSV(hue0: uint16, saturation0: real, value0: real)
      requires HsvDefined(hue0, saturation0, value0)
      modifies this
      ensures GetHSV() == Hsv(hue0, saturation0, value0)
      ensures GetRGB() == HsvToRgb(hue0, saturation0, value0)
    {
      var c := value0 * saturation0;
      var h := hue0 / 60;
      var x := c * (1.0 - Abs((h % 2) as real - 1.0));

      var cr, cg, cb := SectorSwitch(h, c, x);

      var m := value0 - c;
      SwitchComponents(hue0, saturation0, value0, c, x, m, RealRgb(cr, cg, cb));
      r := Cast8(cr + m);
      g := Cast8(cg + m);
      b := Cast8(cb + m);

      hue, saturation, value := hue0, saturation0, value0;
    }
  }

  /**
   * The switch of setHSV: starting from three zero channels, sector h puts
   * the chroma c and the second component x into two of them.
   */
  method SectorSwitch(h: int, c: real, x: real) returns (cr: real, cg: real, cb: real)
    ensures RealRgb(cr, cg, cb) == SectorChannels(h, c, x)
  {
    cr, cg, cb := 0.0, 0.0, 0.0;
    match h {
      case 0 => cr, cg := c, x;
      case 1 => cr, cg := x, c;
      case 2 => cg, cb := c, x;
      case 3 => cg, cb := x, c;
      case 4 => cr, cb := x, c;
      case 5 => cr, cb := c, x;
      case _ =>
    }
  }

  /** The fifteen named colour constants. */
  datatype ColorName =
    | Black | White | RedPure | GreenPure | BluePure
    | DarkRed | LightRed | Purple | LightBlue | LightPink
    | Yellow | DarkYellow | Orange | DarkOrange | LightGreen

  /**
   * The bytes of each named constant. Only Black and White are grey;
   * Black is the only one with no lit channel, White the only one with
   * every channel at full brightness.
   */
  function Palette(n: ColorName): (rgb: Rgb)
    ensures IsGrey(rgb.r, rgb.g, rgb.b) <==> n == Black || n == White
    ensures MaxByte(rgb.r, rgb.g, rgb.b) == 0 <==> n == Black
    ensures MinByte(rgb.r, rgb.g, rgb.b) == 255 <==> n == White
  {
    match n
    case Black => Rgb(0, 0, 0)
    case White => Rgb(255, 255, 255)
    case RedPure => Rgb(255, 0, 0)
    case GreenPure => Rgb(0, 255, 0)
    case BluePure => Rgb(0, 0, 255)
    case DarkRed => Rgb(186, 48, 42)
    case LightRed => Rgb(222, 63, 89)
    case Purple => Rgb(165, 67, 188)
    case LightBlue => Rgb(95, 184, 224)
    case LightPink => Rgb(255, 232, 225)
    case Yellow => Rgb(250, 211, 51)
    case DarkYellow => Rgb(244, 174, 51)
    case Orange => Rgb(240, 143, 51)
    case DarkOrange => Rgb(239, 134, 59)
    case LightGreen => Rgb(216, 255, 56)
  }

  /** No two names share their bytes. */
  lemma PaletteInjective(a: ColorName, b: ColorName)
    ensures Palette(a) == Palette(b) ==> a == b
  {
  }

  /** The pure primaries are fully saturated and fully bright, at hues 0, 120 and 240. */
  lemma {:induction false} PrimaryHsv(n: ColorName)
    requires n == RedPure || n == GreenPure || n == BluePure
    ensures var p := Palette(n);
      SaturationOf(p.r, p.g, p.b) == 1.0 && ValueOf(p.r, p.g, p.b) == 1.0 &&
      HueOf(p.r, p.g, p.b) == if n == RedPure then 0 else if n == GreenPure then 120 else 240
  {
    var p := Palette(n);
    NormMax(p.r, p.g, p.b);
    assert Norm(255) == 1.0 && Norm(0) == 0.0;
  }

  /**
   * Storing a pure primary with setRGB and writing its own HSV back with
   * setHSV, as written, turns the lit channel from 255 into 1.
   */
  lemma {:induction false} PrimaryRoundTripAsWritten(n: ColorName)
    requires n == RedPure || n == GreenPure || n == BluePure
    ensures var p := Palette(n);
      var hsv := Hsv(HueOf(p.r, p.g, p.b), SaturationOf(p.r, p.g, p.b), ValueOf(p.r, p.g, p.b));
      HsvDefined(hsv.hue, hsv.saturation, hsv.value) &&
      HsvToRgb(hsv.hue, hsv.saturation, hsv.value) ==
        Rgb(p.r / 255, p.g / 255, p.b / 255)
  {
    var p := Palette(n);
    PrimaryHsv(n);
    var hue, s, v := HueOf(p.r, p.g, p.b), SaturationOf(p.r, p.g, p.b), ValueOf(p.r, p.g, p.b);
    UnitPrimary(hue, hue / 60, s, v);
  }

  /** With the corrected conversion the same round trip gives the primary back. */
  lemma {:induction false} PrimaryRoundTripScaled(n: ColorName)
    requires n == RedPure || n == GreenPure || n == BluePure
    ensures var p := Palette(n);
      IntendedConversion.HsvToRgbScaled(HueOf(p.r, p.g, p.b), SaturationOf(p.r, p.g, p.b),
                                        ValueOf(p.r, p.g, p.b)) == p
  {
    var p := Palette(n);
    PrimaryHsv(n);
    var hue, s, v := HueOf(p.r, p.g, p.b), SaturationOf(p.r, p.g, p.b), ValueOf(p.r, p.g, p.b);
    IntendedConversion.ScaledPrimary(hue, hue / 60, s, v);
  }

  // The example lemmas from here on fix their inputs through `requires` instead of
  // writing the literals into the call: on symbolic inputs the verifier does not
  // unfold the literal real arithmetic, which otherwise exhausts its resources.
  /** setRGB(255, 250, 0) stores hue 58, saturation 1 and value 1. */
  lemma {:induction false} NearYellowHsv(r: uint8, g: uint8, b: uint8)
    requires r == 255 && g == 250 && b == 0
    ensures HueOf(r, g, b) == 58 && SaturationOf(r, g, b) == 1.0 && ValueOf(r, g, b) == 1.0
  {
    NormMax(r, g, b);
    var q := Norm(g);
    assert q == 250.0 / 255.0;
    IntendedConversion.ModOfUnit(q);
    assert HueDegrees(Norm(r), Norm(g), Norm(b)) == 60.0 * q;
  }

  /**
   * Even the corrected conversion does not invert setRGB exactly on bytes:
   * (255, 250, 0) is stored as hue 58, and hue 58 converts back to green 246.
   */
  lemma {:induction false} ScaledRoundTripInexact(r: uint8, g: uint8, b: uint8)
    requires r == 255 && g == 250 && b == 0
    ensures IntendedConversion.HsvToRgbScaled(HueOf(r, g, b), SaturationOf(r, g, b),
                                              ValueOf(r, g, b)).g == 246
  {
    NearYellowHsv(r, g, b);
    IntendedConversion.ScaledGreenAt58(HueOf(r, g, b), SaturationOf(r, g, b), ValueOf(r, g, b));
  }
}
