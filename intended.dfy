/**
 * The HSV -> RGB conversion that setHSV evidently means to perform (the
 * textbook six-sector decomposition it cites): the second component follows
 * the position of the hue inside its sector, the hue is taken modulo 360, and
 * the channels are scaled to 0..255. Its partner is the RGB -> HSV extraction
 * of setRGB, which recovers hue, saturation and value exactly from the
 * real-valued Decompose (DecomposeInverts); casting the hue to an integer and
 * truncating the bytes loses that exactness (Color.ScaledRoundTripInexact).
 */
module IntendedConversion {
  import opened Conversion

  /** The decomposition for a real hue in [0, 360), before quantisation. */
  function Decompose(hue: real, saturation: real, value: real): RealRgb
    requires 0.0 <= hue < 360.0
  {
    var c := value * saturation;
    var hp := hue / 60.0;
    var x := c * (1.0 - Abs(Mod(hp, 2.0) - 1.0));
    var t := SectorChannels(hp.Floor, c, x);
    var m := value - c;
    RealRgb(t.r + m, t.g + m, t.b + m)
  }

  /** A value in [0, 1] scaled to a byte. */
  function Scale(x: real): (n: uint8)
    requires 0.0 <= x <= 1.0
    ensures n as real <= 255.0 * x < n as real + 1.0
  {
    (255.0 * x).Floor
  }

  /** The corrected setHSV: hue wrapped to [0, 360), channels scaled to 0..255. */
  function HsvToRgbScaled(hue: uint16, saturation: real, value: real): (rgb: Rgb)
    requires 0.0 <= saturation <= 1.0 && 0.0 <= value <= 1.0
    ensures MaxByte(rgb.r, rgb.g, rgb.b) == (255.0 * value).Floor
    ensures MinByte(rgb.r, rgb.g, rgb.b) == (255.0 * (value - value * saturation)).Floor
  {
    var t := Decompose((hue % 360) as real, saturation, value);
    DecomposeLevels((hue % 360) as real, saturation, value);
    ChromaBounds(saturation, value, value * saturation);
    var rgb := Rgb(Scale(t.r), Scale(t.g), Scale(t.b));
    ScaleMonotone(t.r, value); ScaleMonotone(t.g, value); ScaleMonotone(t.b, value);
    ScaleMonotone(value - value * saturation, t.r);
    ScaleMonotone(value - value * saturation, t.g);
    ScaleMonotone(value - value * saturation, t.b);
    rgb
  }

  lemma ScaleMonotone(x: real, y: real)
    requires 0.0 <= x <= y <= 1.0
    ensures Scale(x) <= Scale(y)
  {
  }

  // ---------------------------------------------------------------------
  // Shape of the decomposition

  /** The position of a hue inside its sector: hue / 60 = k + f, 0 <= f < 1. */
  lemma {:induction false} SectorPosition(hue: real)
    requires 0.0 <= hue < 360.0
    ensures var hp := hue / 60.0;
      var k := hp.Floor;
      0 <= k < 6 &&
      0.0 <= hp - k as real < 1.0 &&
      Mod(hp, 2.0) == hp - k as real + (k % 2) as real
  {
    var hp := hue / 60.0;
    var k := hp.Floor;
    assert (hp / 2.0).Floor == k / 2;
  }

  /** The sector k of a hue and its position f inside it: hue = 60 * (k + f). */
  lemma {:induction false} SectorOf(hue: real) returns (k: int, f: real)
    requires 0.0 <= hue < 360.0
    ensures k == (hue / 60.0).Floor && f == hue / 60.0 - k as real
    ensures 0 <= k < 6 && 0.0 <= f < 1.0 && hue == 60.0 * (k as real + f)
  {
    SectorPosition(hue);
    k := (hue / 60.0).Floor;
    f := hue / 60.0 - k as real;
  }

  /** The second component is c * f in even sectors and c * (1 - f) in odd ones. */
  lemma {:induction false} SecondComponentInSector(c: real, hue: real)
    requires 0.0 <= hue < 360.0
    ensures var hp := hue / 60.0;
      var k := hp.Floor;
      var f := hp - k as real;
      var x := c * (1.0 - Abs(Mod(hp, 2.0) - 1.0));
      (k % 2 == 0 ==> x == c * f) && (k % 2 == 1 ==> x == c * (1.0 - f))
  {
    SectorPosition(hue);
  }

  /**
   * The six channel patterns of the decomposition, for the top level v, the
   * bottom level m, a rising component y and a falling component z.
   */
  function Shape(k: int, v: real, y: real, z: real, m: real): RealRgb {
    if k == 0 then RealRgb(v, y, m)
    else if k == 1 then RealRgb(z, v, m)
    else if k == 2 then RealRgb(m, v, y)
    else if k == 3 then RealRgb(m, z, v)
    else if k == 4 then RealRgb(y, m, v)
    else RealRgb(v, m, z)
  }

  /**
   * In sector k at position f, the decomposition is the k-th pattern with the
   * rising component c * f + m and the falling component c * (1 - f) + m.
   */
  lemma {:induction false} DecomposeShape(hue: real, saturation: real, value: real,
                                          k: int, f: real, c: real, m: real)
    requires 0.0 <= hue < 360.0
    requires k == (hue / 60.0).Floor && f == hue / 60.0 - k as real
    requires c == value * saturation && m == value - c
    ensures Decompose(hue, saturation, value) == Shape(k, value, c * f + m, c * (1.0 - f) + m, m)
  {
    SectorPosition(hue);
    SecondComponentInSector(value * saturation, hue);
  }

  /** c * f + m and c * (1 - f) + m lie between m and m + c for f in [0, 1]. */
  lemma {:induction false} Lift(c: real, f: real, m: real, y: real, z: real)
    requires c >= 0.0 && 0.0 <= f <= 1.0 && y == c * f + m && z == c * (1.0 - f) + m
    ensures m <= y <= m + c && m <= z <= m + c
  {
    assert c - c * f == c * (1.0 - f);
  }

  /** Each pattern takes its top and bottom level once, and stays between them. */
  lemma ShapeLevels(k: int, v: real, y: real, z: real, m: real)
    requires m <= y <= v && m <= z <= v
    ensures var t := Shape(k, v, y, z, m);
      m <= t.r <= v && m <= t.g <= v && m <= t.b <= v &&
      (t.r == v || t.g == v || t.b == v) && (t.r == m || t.g == m || t.b == m)
  {
  }

  /**
   * Every component of the decomposition lies between m = value - c and
   * value, and the largest and the smallest are exactly value and m.
   */
  lemma {:induction false} DecomposeLevels(hue: real, saturation: real, value: real)
    requires 0.0 <= hue < 360.0
    requires 0.0 <= saturation <= 1.0 && 0.0 <= value
    ensures var t := Decompose(hue, saturation, value);
      var m := value - value * saturation;
      m <= t.r <= value && m <= t.g <= value && m <= t.b <= value &&
      (t.r == value || t.g == value || t.b == value) &&
      (t.r == m || t.g == m || t.b == m)
  {
    var c := value * saturation;
    var m := value - c;
    ChromaBounds(saturation, value, c);
    var k, f := SectorOf(hue);
    DecomposeShape(hue, saturation, value, k, f, c, m);
    var y, z := c * f + m, c * (1.0 - f) + m;
    Lift(c, f, m, y, z);
    ShapeLevels(k, value, y, z, m);
  }

  // ---------------------------------------------------------------------
  // Round trip through the extraction of setRGB

  /** The facts about the rising and falling components the extraction needs. */
  lemma {:induction false} Levels(c: real, f: real, m: real)
    requires c > 0.0 && 0.0 <= f < 1.0
    ensures var y, z := c * f + m, c * (1.0 - f) + m;
      m <= y < m + c && (y - m) / c == f && (m - y) / c == -f &&
      m < z <= m + c && (m - z) / c == f - 1.0 &&
      (f == 0.0 <==> z == m + c)
  {
    var y, z := c * f + m, c * (1.0 - f) + m;
    Cancel(f, c, y - m);
    Cancel(-f, c, m - y);
    Cancel(f - 1.0, c, m - z);
    Cancel(1.0 - f, c, z - m);
    assert z - m > 0.0 by { Positive(1.0 - f, c); }
    assert c - (y - m) == c * (1.0 - f);
    assert c - (y - m) > 0.0 by { Positive(1.0 - f, c); }
  }

  /** a * c / c == a, stated for the product p = a * c. */
  lemma {:induction false} Cancel(a: real, c: real, p: real)
    requires c > 0.0 && p == a * c
    ensures p / c == a
  {
  }

  lemma {:induction false} Positive(a: real, c: real)
    requires a > 0.0 && c > 0.0
    ensures a * c > 0.0
  {
  }

  lemma {:induction false} ModOfUnit(a: real)
    requires -1.0 <= a < 1.0
    ensures a >= 0.0 ==> Mod(a, 6.0) == a
    ensures a < 0.0 ==> Mod(a, 6.0) == a + 6.0
  {
    if a >= 0.0 {
      assert (a / 6.0).Floor == 0;
    } else {
      assert (a / 6.0).Floor == -1;
    }
  }

  /** The extraction of setRGB applied to the k-th pattern gives 60 * (k + f). */
  lemma {:induction false} SectorHue(k: int, c: real, f: real, v: real, y: real, z: real, m: real)
    requires 0 <= k < 6 && c > 0.0 && 0.0 <= f < 1.0 && m >= 0.0 && v == m + c
    requires m <= y < v && (y - m) / c == f && (m - y) / c == -f
    requires m < z <= v && (m - z) / c == f - 1.0 && (f == 0.0 <==> z == v)
    ensures var t := Shape(k, v, y, z, m);
      Max3(t.r, t.g, t.b) == v && Min3(t.r, t.g, t.b) == m &&
      0.0 <= t.r && 0.0 <= t.g && 0.0 <= t.b &&
      HueDegrees(t.r, t.g, t.b) == 60.0 * (k as real + f) &&
      Saturation(t.r, t.g, t.b) == c / v
  {
    assert (v - m) / c == 1.0;
    assert (m - v) / c == -1.0;
    if k == 0 {
      ModOfUnit(f);
    } else if k == 5 {
      ModOfUnit(f - 1.0);
    } else if k == 1 && f == 0.0 {
      ModOfUnit(1.0 - 1.0);
      assert Mod(1.0, 6.0) == 1.0 by { assert (1.0 / 6.0).Floor == 0; }
    }
  }

  /**
   * The extraction of setRGB, applied to the real channels t, yields exactly
   * the given hue, saturation and value.
   */
  predicate Recovers(t: RealRgb, hue: real, saturation: real, value: real) {
    0.0 <= t.r && 0.0 <= t.g && 0.0 <= t.b &&
    Max3(t.r, t.g, t.b) != Min3(t.r, t.g, t.b) &&
    HueDegrees(t.r, t.g, t.b) == hue &&
    Saturation(t.r, t.g, t.b) == saturation &&
    Max3(t.r, t.g, t.b) == value
  }

  /**
   * The real-valued round trip: decomposing (hue, s, v) and extracting hue,
   * saturation and value again, with setRGB's formulas, returns the original
   * triple exactly. Quantising the channels to bytes and the hue to an
   * integer loses this exactness.
   */
  lemma {:induction false} DecomposeInverts(hue: real, saturation: real, value: real)
    requires 0.0 <= hue < 360.0 && 0.0 < saturation <= 1.0 && 0.0 < value
    ensures Recovers(Decompose(hue, saturation, value), hue, saturation, value)
  {
    var k, f := SectorOf(hue);
    var c := value * saturation;
    var m := value - c;
    DecomposeShape(hue, saturation, value, k, f, c, m);
    ShapeRecovers(hue, saturation, value, k, f, c, m);
  }

  /** The round trip on the k-th pattern at position f. */
  lemma {:induction false} ShapeRecovers(hue: real, saturation: real, value: real,
                                         k: int, f: real, c: real, m: real)
    requires 0.0 < saturation <= 1.0 && 0.0 < value
    requires 0 <= k < 6 && 0.0 <= f < 1.0 && hue == 60.0 * (k as real + f)
    requires c == value * saturation && m == value - c
    ensures Recovers(Shape(k, value, c * f + m, c * (1.0 - f) + m, m), hue, saturation, value)
  {
    var y, z := c * f + m, c * (1.0 - f) + m;
    Positive(value, saturation);
    ChromaBounds(saturation, value, c);
    Levels(c, f, m);
    SectorHue(k, c, f, value, y, z, m);
    Cancel(saturation, value, c);
  }

  // ---------------------------------------------------------------------
  // Agreement with the firmware, and the cases it gets wrong

  /**
   * At the first hue of each sector, the firmware's unscaled components
   * coincide with the textbook decomposition: the two differ only inside
   * sectors and in the missing scaling.
   */
  lemma {:induction false} AgreeAtSectorStarts(k: int, saturation: real, value: real)
    requires 0 <= k < 6
    ensures Components((60 * k) as uint16, saturation, value) ==
            Decompose((60 * k) as real, saturation, value)
  {
    var hue := (60 * k) as real;
    SectorPosition(hue);
    assert (hue / 60.0).Floor == k;
    SecondComponentInSector(value * saturation, hue);
  }

  /** The corrected conversion at the start of sector k: each channel is value or m. */
  lemma {:induction false} ScaledSectorStart(hue: uint16, k: int, saturation: real, value: real, m: real)
    requires 0 <= k < 6 && hue as int % 360 == 60 * k
    requires 0.0 <= saturation <= 1.0 && 0.0 <= value <= 1.0 && m == value - value * saturation
    ensures HsvToRgbScaled(hue, saturation, value) ==
      Rgb(Scale(Shape(k, value, m, value, m).r), Scale(Shape(k, value, m, value, m).g),
          Scale(Shape(k, value, m, value, m).b))
  {
    var h := (hue as int % 360) as real;
    var k', f := SectorOf(h);
    assert k' == k && f == 0.0;
    var c := value * saturation;
    ChromaBounds(saturation, value, c);
    DecomposeShape(h, saturation, value, k, f, c, m);
    assert c * f + m == m && c * (1.0 - f) + m == value;
  }

  // The example lemmas from here on fix their inputs through `requires` instead of
  // writing the literals into the call: on symbolic inputs the verifier does not
  // unfold the literal real arithmetic, which otherwise exhausts its resources.
  /**
   * The corrected conversion gives the pure primaries at full saturation and value:
   * red at 0 and 360 degrees, green at 120 and blue at 240.
   */
  lemma {:induction false} ScaledPrimary(hue: uint16, k: int, saturation: real, value: real)
    requires k == 0 || k == 2 || k == 4
    requires hue as int % 360 == 60 * k && saturation == 1.0 && value == 1.0
    ensures HsvToRgbScaled(hue, saturation, value) ==
      if k == 0 then Rgb(255, 0, 0) else if k == 2 then Rgb(0, 255, 0) else Rgb(0, 0, 255)
  {
    var m := value - value * saturation;
    assert Scale(value) == 255 && Scale(m) == 0;
    ScaledSectorStart(hue, k, saturation, value, m);
  }

  /** Halfway through the first sector the textbook second component is half the chroma. */
  lemma {:induction false} HalfwayIsOrange(hue: real, saturation: real, value: real)
    requires hue == 30.0 && saturation == 1.0 && value == 1.0
    ensures Decompose(hue, saturation, value) == RealRgb(1.0, 0.5, 0.0)
  {
    var k, f := SectorOf(hue);
    assert k == 0 && f == 0.5;
    var c, m := value * saturation, value - value * saturation;
    assert c == 1.0 && m == 0.0;
    DecomposeShape(hue, saturation, value, k, f, c, m);
  }

  /** At hue 58 with full saturation and value, the corrected green byte is 246. */
  lemma {:induction false} ScaledGreenAt58(hue: uint16, saturation: real, value: real)
    requires hue == 58 && saturation == 1.0 && value == 1.0
    ensures HsvToRgbScaled(hue, saturation, value).g == 246
  {
    var h := (hue % 360) as real;
    var k, f := SectorOf(h);
    assert k == 0 && f == 58.0 / 60.0;
    DecomposeShape(h, saturation, value, k, f, 1.0, 0.0);
    assert Decompose(h, saturation, value).g == f;
    assert Scale(f) == 246;
  }
}
