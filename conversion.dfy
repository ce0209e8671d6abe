/**
 * The arithmetic of MotiColor: the C integer and float helpers it relies on,
 * the RGB -> HSV extraction done by setRGB and the HSV -> RGB decomposition
 * done by setHSV, exactly as the firmware writes them.
 *
 * Floats are exact reals here; C's float-to-integer casts truncate toward zero
 * and are only defined when the truncated value fits the target type, which
 * the casts below demand of their callers.
 */
module Conversion {

  type uint8 = x: int | 0 <= x < 0x100
  type uint16 = x: int | 0 <= x < 0x1_0000

  /** The three bytes returned by getRGB. */
  datatype Rgb = Rgb(r: uint8, g: uint8, b: uint8)

  /** The three values returned by getHSV. */
  datatype Hsv = Hsv(hue: uint16, saturation: real, value: real)

  /** Three real channel intensities, before they are cast to bytes. */
  datatype RealRgb = RealRgb(r: real, g: real, b: real)

  function Abs(x: real): real { if x < 0.0 then -x else x }

  /** C truncation of a float toward zero. */
  function Trunc(x: real): (n: int)
    ensures x >= 0.0 ==> n >= 0 && n as real <= x < n as real + 1.0
    ensures x < 0.0 ==> n <= 0 && n as real - 1.0 < x <= n as real
  {
    if x >= 0.0 then x.Floor else -((-x).Floor)
  }

  /** The C cast (uint8_t) of a float; defined when the truncation fits a byte. */
  function Cast8(x: real): (n: uint8)
    requires -1.0 < x < 256.0
    ensures n as real <= Abs(x) < n as real + 1.0
  {
    Trunc(x)
  }

  /** The C cast (uint16_t) of a float; defined when the truncation fits 16 bits. */
  function Cast16(x: real): (n: uint16)
    requires -1.0 < x < 65536.0
    ensures n as real <= Abs(x) < n as real + 1.0
  {
    Trunc(x)
  }

  /** C's fmod: the remainder of a truncating division, carrying the sign of a. */
  function Fmod(a: real, b: real): (r: real)
    requires b != 0.0
    ensures b > 0.0 && a >= 0.0 ==> 0.0 <= r < b
    ensures b > 0.0 && a < 0.0 ==> -b < r <= 0.0
  {
    var n := Trunc(a / b);
    if b > 0.0 then
      FmodBounds(a, b);
      a - n as real * b
    else
      a - n as real * b
  }

  lemma {:induction false} FmodBounds(a: real, b: real)
    requires b > 0.0
    ensures var r := a - Trunc(a / b) as real * b;
      (a >= 0.0 ==> 0.0 <= r < b) && (a < 0.0 ==> -b < r <= 0.0)
  {
    var q := a / b;
    var n := Trunc(q);
    QuotientSign(a, b);
    var t := q - n as real;
    RemainderIdentity(a, b, n);
    ScaleUnit(t, b, a - n as real * b);
  }

  lemma {:induction false} RemainderIdentity(a: real, b: real, n: int)
    requires b > 0.0
    ensures a - n as real * b == (a / b - n as real) * b
  {
  }

  /** Scaling a number in (-1, 1) by a positive b keeps its sign and lands in (-b, b). */
  lemma {:induction false} ScaleUnit(t: real, b: real, p: real)
    requires b > 0.0 && -1.0 < t < 1.0 && p == t * b
    ensures -b < p < b
    ensures t >= 0.0 ==> p >= 0.0
    ensures t <= 0.0 ==> p <= 0.0
  {
    assert b - p == (1.0 - t) * b;
    assert p + b == (t + 1.0) * b;
  }

  lemma {:induction false} QuotientSign(a: real, b: real)
    requires b > 0.0
    ensures a / b >= 0.0 <==> a >= 0.0
  {
    var q := a / b;
    assert a == q * b;
    if q >= 0.0 {
      assert q * b >= 0.0 * b;
    } else {
      assert q * b < 0.0 * b;
    }
  }


  /**
   * __mod (MotiColor.cpp): fmod shifted into [0, b) when it came out negative.
   * For a positive modulus it is the floored modulo a - floor(a/b) * b.
   */
  function Mod(a: real, b: real): (r: real)
    requires b != 0.0
    ensures b > 0.0 ==> 0.0 <= r < b && r == a - (a / b).Floor as real * b
  {
    var f := Fmod(a, b);
    ModIsFloored(a, b);
    if f < 0.0 then f + b else f
  }

  lemma ModIsFloored(a: real, b: real)
    requires b != 0.0
    ensures var f := Fmod(a, b);
      b > 0.0 ==> (if f < 0.0 then f + b else f) == a - (a / b).Floor as real * b
  {
    if b < 0.0 { return; }
    var q := a / b;
    var n := Trunc(q);
    var fl := q.Floor;
    assert a == q * b;
    var f := Fmod(a, b);
    assert f == (q - n as real) * b;
    if q >= 0.0 {
      assert n == fl;
      assert f >= 0.0;
    } else if q == fl as real {
      assert n == fl;
      assert f == 0.0;
    } else {
      assert n == fl + 1;
      assert q - n as real < 0.0;
      assert f < 0.0;
      assert f + b == (q - fl as real) * b;
    }
  }

  // ---------------------------------------------------------------------
  // RGB -> HSV (setRGB)

  /** A byte as a float in [0, 1], as setRGB normalises each channel. */
  function Norm(x: uint8): (n: real)
    ensures 0.0 <= n <= 1.0 && n * 255.0 == x as real
  {
    x as real / 255.0
  }

  /** max(a, max(b, c)) with the Arduino macro: the largest of the three. */
  function Max3(a: real, b: real, c: real): (m: real)
    ensures m >= a && m >= b && m >= c
    ensures m == a || m == b || m == c
  {
    var bc := if b > c then b else c;
    if a > bc then a else bc
  }

  /** min(a, min(b, c)) with the Arduino macro: the smallest of the three. */
  function Min3(a: real, b: real, c: real): (m: real)
    ensures m <= a && m <= b && m <= c
    ensures m == a || m == b || m == c
  {
    var bc := if b < c then b else c;
    if a < bc then a else bc
  }

  function MaxByte(r: uint8, g: uint8, b: uint8): uint8 {
    if r >= g && r >= b then r else if g >= b then g else b
  }

  function MinByte(r: uint8, g: uint8, b: uint8): uint8 {
    if r <= g && r <= b then r else if g <= b then g else b
  }

  /** The three channels are equal: the achromatic colours. */
  predicate IsGrey(r: uint8, g: uint8, b: uint8) { r == g && g == b }

  lemma {:induction false} QuotientInUnit(p: real, d: real)
    requires d > 0.0 && -d <= p <= d
    ensures -1.0 <= p / d <= 1.0
    ensures p >= 0.0 ==> p / d >= 0.0
    ensures p > 0.0 ==> p / d > 0.0
    ensures p < 0.0 ==> p / d < 0.0
    ensures p < d ==> p / d < 1.0
    ensures -d < p ==> -1.0 < p / d
  {
    var q := p / d;
    assert p == q * d;
    FactorSign(q, d, p);
    FactorSign(1.0 - q, d, d - p);
    FactorSign(q + 1.0, d, p + d);
  }

  /** A product with a positive factor d has the sign of its other factor x. */
  lemma {:induction false} FactorSign(x: real, d: real, p: real)
    requires d > 0.0 && p == x * d
    ensures p > 0.0 ==> x > 0.0
    ensures p >= 0.0 ==> x >= 0.0
    ensures p < 0.0 ==> x < 0.0
  {
    if x > 0.0 {
      assert x * d > 0.0 * d;
    } else if x < 0.0 {
      assert x * d < 0.0 * d;
    }
  }

  /**
   * The hue of setRGB in degrees before the uint16_t cast, from the
   * normalised channels: the channel that is the maximum, in the order red,
   * green, blue, picks the formula. Undefined for grey (0 / 0).
   */
  function HueDegrees(nr: real, ng: real, nb: real): (h: real)
    requires Max3(nr, ng, nb) != Min3(nr, ng, nb)
    ensures 0.0 <= h < 360.0
    ensures nr == Max3(nr, ng, nb) ==> h <= 60.0 || 300.0 <= h
    ensures nr != Max3(nr, ng, nb) && ng == Max3(nr, ng, nb) ==> 60.0 <= h <= 180.0
    ensures nr != Max3(nr, ng, nb) && ng != Max3(nr, ng, nb) ==> 180.0 <= h <= 300.0
  {
    var cMax := Max3(nr, ng, nb);
    var cMin := Min3(nr, ng, nb);
    var delta := cMax - cMin;
    if cMax == nr then
      QuotientInUnit(ng - nb, delta);
      60.0 * Mod((ng - nb) / delta, 6.0)
    else if cMax == ng then
      QuotientInUnit(nb - nr, delta);
      60.0 * ((nb - nr) / delta + 2.0)
    else
      QuotientInUnit(nr - ng, delta);
      60.0 * ((nr - ng) / delta + 4.0)
  }

  /** Saturation from normalised channels: 0 for grey, else delta / max. */
  function Saturation(nr: real, ng: real, nb: real): real
    requires 0.0 <= nr && 0.0 <= ng && 0.0 <= nb
  {
    var cMax := Max3(nr, ng, nb);
    var cMin := Min3(nr, ng, nb);
    if cMax == cMin then 0.0 else (cMax - cMin) / cMax
  }

  lemma NormMax(r: uint8, g: uint8, b: uint8)
    ensures Max3(Norm(r), Norm(g), Norm(b)) == Norm(MaxByte(r, g, b))
    ensures Min3(Norm(r), Norm(g), Norm(b)) == Norm(MinByte(r, g, b))
    ensures Norm(r) == Max3(Norm(r), Norm(g), Norm(b)) <==> r >= g && r >= b
    ensures Norm(g) == Max3(Norm(r), Norm(g), Norm(b)) <==> g >= r && g >= b
  {
  }

  /** The hue setRGB stores for a non-grey colour. */
  function HueOf(r: uint8, g: uint8, b: uint8): (hue: uint16)
    requires !IsGrey(r, g, b)
    ensures hue < 360
    ensures r >= g && r >= b ==> hue <= 60 || 300 <= hue
    ensures !(r >= g && r >= b) && g >= b ==> 60 <= hue <= 180
    ensures !(r >= g && r >= b) && g < b ==> 180 <= hue <= 300
  {
    NormMax(r, g, b);
    var h := HueDegrees(Norm(r), Norm(g), Norm(b));
    Cast16(h)
  }

  /** The saturation setRGB stores. */
  function SaturationOf(r: uint8, g: uint8, b: uint8): (s: real)
    ensures s == 0.0 <==> IsGrey(r, g, b)
    ensures !IsGrey(r, g, b) ==>
      0.0 < s <= 1.0 &&
      s == (MaxByte(r, g, b) - MinByte(r, g, b)) as real / MaxByte(r, g, b) as real
  {
    SaturationOfBytes(r, g, b);
    Saturation(Norm(r), Norm(g), Norm(b))
  }

  lemma SaturationOfBytes(r: uint8, g: uint8, b: uint8)
    ensures var s := Saturation(Norm(r), Norm(g), Norm(b));
      (s == 0.0 <==> IsGrey(r, g, b)) &&
      (!IsGrey(r, g, b) ==>
        0.0 < s <= 1.0 &&
        s == (MaxByte(r, g, b) - MinByte(r, g, b)) as real / MaxByte(r, g, b) as real)
  {
    NormMax(r, g, b);
    var hi, lo := MaxByte(r, g, b), MinByte(r, g, b);
    var s := Saturation(Norm(r), Norm(g), Norm(b));
    if !IsGrey(r, g, b) {
      assert lo < hi;
      assert s == (Norm(hi) - Norm(lo)) / Norm(hi);
      assert Norm(hi) - Norm(lo) == (hi - lo) as real / 255.0;
      CommonScale((hi - lo) as real, hi as real, 255.0);
      QuotientInUnit((hi - lo) as real, hi as real);
    }
  }

  /** Dividing numerator and denominator by the same k leaves a quotient unchanged. */
  lemma {:induction false} CommonScale(x: real, y: real, k: real)
    requires k > 0.0 && y > 0.0
    ensures (x / k) / (y / k) == x / y
  {
    var q := x / y;
    assert x == q * y;
    assert x / k == q * (y / k);
  }

  /** The value setRGB stores: the brightest channel, scaled to [0, 1]. */
  function ValueOf(r: uint8, g: uint8, b: uint8): (v: real)
    ensures v == MaxByte(r, g, b) as real / 255.0
    ensures 0.0 <= v <= 1.0
  {
    NormMax(r, g, b);
    Max3(Norm(r), Norm(g), Norm(b))
  }

  // ---------------------------------------------------------------------
  // HSV -> RGB (setHSV)

  /**
   * The switch of setHSV on the sector h: which of the chroma c and the
   * second component x goes to which channel. No case matches h >= 6, and
   * the channels keep their initial 0.
   */
  function SectorChannels(h: int, c: real, x: real): RealRgb {
    if h == 0 then RealRgb(c, x, 0.0)
    else if h == 1 then RealRgb(x, c, 0.0)
    else if h == 2 then RealRgb(0.0, c, x)
    else if h == 3 then RealRgb(0.0, x, c)
    else if h == 4 then RealRgb(x, 0.0, c)
    else if h == 5 then RealRgb(c, 0.0, x)
    else RealRgb(0.0, 0.0, 0.0)
  }

  /** The second component of setHSV, from the parity of the integer sector h. */
  function SecondComponent(c: real, h: int): real {
    c * (1.0 - Abs((h % 2) as real - 1.0))
  }

  /**
   * The three floats setHSV casts to bytes: the switch's channels plus
   * m = value - c, where c = value * saturation and the sector is the
   * integer hue / 60.
   */
  function Components(hue: uint16, saturation: real, value: real): RealRgb {
    var c := value * saturation;
    var h := hue / 60;
    var t := SectorChannels(h, c, SecondComponent(c, h));
    var m := value - c;
    RealRgb(t.r + m, t.g + m, t.b + m)
  }

  /** The switch's channels, computed step by step, plus m are the components. */
  lemma {:induction false} SwitchComponents(hue: uint16, saturation: real, value: real,
                                            c: real, x: real, m: real, t: RealRgb)
    requires c == value * saturation && m == value - c
    requires x == SecondComponent(c, hue / 60) && t == SectorChannels(hue / 60, c, x)
    ensures Components(hue, saturation, value) == RealRgb(t.r + m, t.g + m, t.b + m)
  {
  }

  predicate CastsToByte(x: real) { -1.0 < x < 256.0 }

  /** setHSV is defined exactly when all three casts to uint8_t are. */
  predicate HsvDefined(hue: uint16, saturation: real, value: real) {
    var t := Components(hue, saturation, value);
    CastsToByte(t.r) && CastsToByte(t.g) && CastsToByte(t.b)
  }

  /**
   * Because the sector h is an integer, h % 2 is 0 or 1 and the second
   * component is 0 in even sectors and the whole chroma in odd ones.
   */
  lemma SecondComponentIsZeroOrChroma(c: real, h: int)
    ensures h % 2 == 0 ==> SecondComponent(c, h) == 0.0
    ensures h % 2 == 1 ==> SecondComponent(c, h) == c
  {
  }

  /**
   * The six corners of the colour cube that setHSV reaches as written:
   * red, yellow, green, cyan, blue, magenta.
   */
  function Corner(h: int): RealRgb
    requires 0 <= h < 6
  {
    [RealRgb(1.0, 0.0, 0.0), RealRgb(1.0, 1.0, 0.0), RealRgb(0.0, 1.0, 0.0),
     RealRgb(0.0, 1.0, 1.0), RealRgb(0.0, 0.0, 1.0), RealRgb(1.0, 0.0, 1.0)][h]
  }

  /**
   * Every hue below 360 yields the corner colour of its sector, scaled by the
   * chroma c and lifted by m: the hue within the sector plays no part.
   */
  lemma {:induction false} SectorCorner(hue: uint16, saturation: real, value: real)
    requires hue < 360
    ensures var c := value * saturation;
      var m := value - c;
      var k := Corner(hue / 60);
      Components(hue, saturation, value) == RealRgb(c * k.r + m, c * k.g + m, c * k.b + m)
  {
    var h := hue / 60;
    var c := value * saturation;
    SecondComponentIsZeroOrChroma(c, h);
    assert c * 1.0 == c && c * 0.0 == 0.0;
  }

  /** For hue >= 360 no case of the switch applies: all channels are m. */
  lemma HueBeyondSectorsIsGrey(hue: uint16, saturation: real, value: real)
    requires hue >= 360
    ensures var m := value - value * saturation;
      Components(hue, saturation, value) == RealRgb(m, m, m)
  {
  }

  /** Each component is either the value or m = value - c, for every hue. */
  lemma {:induction false} TwoLevels(hue: uint16, saturation: real, value: real)
    ensures var t := Components(hue, saturation, value);
      var m := value - value * saturation;
      (t.r == value || t.r == m) && (t.g == value || t.g == m) && (t.b == value || t.b == m)
  {
    var c := value * saturation;
    var h := hue / 60;
    SecondComponentIsZeroOrChroma(c, h);
    var x := SecondComponent(c, h);
    assert x == 0.0 || x == c;
    var t := SectorChannels(h, c, x);
    assert t.r == 0.0 || t.r == c;
    assert t.g == 0.0 || t.g == c;
    assert t.b == 0.0 || t.b == c;
  }

  /**
   * The bytes setHSV stores. Each channel is the truncation of value or of
   * value - c, since x is 0 or c; past the six sectors all three are value - c.
   */
  function HsvToRgb(hue: uint16, saturation: real, value: real): (rgb: Rgb)
    requires HsvDefined(hue, saturation, value)
    ensures var hi, lo := Trunc(value), Trunc(value - value * saturation);
      (rgb.r == hi || rgb.r == lo) && (rgb.g == hi || rgb.g == lo) && (rgb.b == hi || rgb.b == lo)
    ensures hue >= 360 ==> rgb.r == rgb.g == rgb.b == Trunc(value - value * saturation)
  {
    var t := Components(hue, saturation, value);
    TwoLevels(hue, saturation, value);
    Rgb(Cast8(t.r), Cast8(t.g), Cast8(t.b))
  }

  /** For saturation in [0, 1] and a non-negative value, 0 <= value * saturation <= value. */
  lemma {:induction false} ChromaBounds(saturation: real, value: real, c: real)
    requires 0.0 <= saturation <= 1.0 && 0.0 <= value && c == value * saturation
    ensures 0.0 <= c <= value
  {
    assert value - c == value * (1.0 - saturation);
  }

  /**
   * With saturation and value in [0, 1], the range setRGB produces, setHSV
   * is defined and never scales to 0..255: every channel is 0 or 1, and at
   * most the truncated value.
   */
  lemma {:induction false} UnitInputsGiveBits(hue: uint16, saturation: real, value: real)
    requires 0.0 <= saturation <= 1.0 && 0.0 <= value <= 1.0
    ensures HsvDefined(hue, saturation, value)
    ensures var rgb := HsvToRgb(hue, saturation, value);
      rgb.r <= 1 && rgb.g <= 1 && rgb.b <= 1 &&
      rgb.r <= value.Floor && rgb.g <= value.Floor && rgb.b <= value.Floor
  {
    ChromaBounds(saturation, value, value * saturation);
    TwoLevels(hue, saturation, value);
  }

  /** Hues within one 60-degree sector are indistinguishable to setHSV. */
  lemma SameSectorSameComponents(hue1: uint16, hue2: uint16, saturation: real, value: real)
    requires hue1 / 60 == hue2 / 60
    ensures Components(hue1, saturation, value) == Components(hue2, saturation, value)
  {
  }

  /** As written, setHSV(360, 1, 1) stores black: no sector matches. */
  lemma FullHueIsBlack()
    ensures HsvDefined(360, 1.0, 1.0) && HsvToRgb(360, 1.0, 1.0) == Rgb(0, 0, 0)
  {
    HueBeyondSectorsIsGrey(360, 1.0, 1.0);
    assert Components(360, 1.0, 1.0) == RealRgb(0.0, 0.0, 0.0);
  }

  // The example lemmas from here on fix their inputs through `requires` instead of
  // writing the literals into the call: on symbolic inputs the verifier does not
  // unfold the literal real arithmetic, which otherwise exhausts its resources.
  /** As written, hue 30 gives exactly the colour of hue 0: the hue inside a sector is lost. */
  lemma {:induction false} AsWrittenIgnoresHueInSector(saturation: real, value: real)
    requires saturation == 1.0 && value == 1.0
    ensures Components(30, saturation, value) == Components(0, saturation, value)
    ensures Components(30, saturation, value) == RealRgb(1.0, 0.0, 0.0)
  {
    SectorCorner(30, saturation, value);
    SameSectorSameComponents(30, 0, saturation, value);
  }

  /** At full saturation and value each component is that of the sector's corner. */
  lemma {:induction false} UnitCorner(hue: uint16, saturation: real, value: real)
    requires hue < 360 && saturation == 1.0 && value == 1.0
    ensures Components(hue, saturation, value) == Corner(hue / 60)
  {
    SectorCorner(hue, saturation, value);
    assert value * saturation == 1.0 && value - value * saturation == 0.0;
  }

  /** As written, full saturation and value at 0, 120 or 240 degrees give a single channel of 1. */
  lemma {:induction false} UnitPrimary(hue: uint16, k: int, saturation: real, value: real)
    requires k == 0 || k == 2 || k == 4
    requires hue as int == 60 * k && saturation == 1.0 && value == 1.0
    ensures HsvDefined(hue, saturation, value)
    ensures HsvToRgb(hue, saturation, value) ==
      if k == 0 then Rgb(1, 0, 0) else if k == 2 then Rgb(0, 1, 0) else Rgb(0, 0, 1)
  {
    UnitCorner(hue, saturation, value);
    assert hue / 60 == k;
  }
}
