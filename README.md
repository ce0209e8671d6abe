# MotiLed colour and LED model

A Dafny model of the LED firmware of Moti, a spherical toy robot. It covers two C++ classes:

- `MotiColor` keeps one colour twice. It holds RGB bytes (`_r`, `_g`, `_b`) and HSV: an integer hue in degrees plus float saturation and value. `setRGB` stores the bytes and derives HSV from them. `setHSV` stores HSV and derives the bytes with the six-sector chroma/x/m decomposition. The file also defines fifteen named colour constants.
- `MotiLed` drives one RGB LED through three PWM pins and remembers the colour it shows. Its `shine` variants write that colour's channels to the pins with `analogWrite`.

The project has four modules:

- `Conversion` (`conversion.dfy`) holds the arithmetic of `MotiColor.cpp`, exactly as written:
  - the C casts `(uint8_t)` and `(uint16_t)`, modelled as truncation toward zero, which is defined only when the result fits the target type;
  - `fmod`, and `__mod`;
  - the RGB → HSV extraction done by `setRGB`;
  - the HSV → RGB decomposition done by `setHSV`.

  Floats are exact reals.
- `IntendedConversion` (`intended.dfy`) is the HSV → RGB conversion that `setHSV` evidently means to perform. It uses the fractional position of the hue in its sector, wraps the hue modulo 360, and scales to 0..255. Its real-valued decomposition `Decompose`, taken before the channels are scaled to bytes and before the hue is cast to an integer, is proved to be inverted exactly by `setRGB`'s extraction formulas. It supplies the corrected half of the three `setHSV` findings below; the corrected four-argument constructor of the fourth finding is `Led.MotiLed.WithPinsAndColorIntended`.
- `Color` (`color.dfy`) holds the class `MotiColor`, whose fields are updated in place by its constructors and setters, and the table of named colours.
  - The getters (`getR`, `getG`, `getB`, `getRGB`, `getHue`, `getSaturation`, `getValue`, `getHSV`) are functions that read the fields. `getRGB` and `getHSV` return their triple as one value instead of through pointers.
  - The contracts of the setters and constructors are stated through these getters.
- `Led` (`led.dfy`) holds the class `MotiLed`.
  - The LED owns its colour by value, so its colour object is only ever copied into and out of.
  - `analogWrite` is recorded as an entry `(pin, level)` appended to a ghost log of writes. The log belongs to the LED.
  - A ghost flag records whether a constructor wrote the pin fields. It is only a marker. The defect of the four-argument constructor shows in its contract, which guarantees nothing about `Pins()`: after `new MotiLed.WithPinsAndColor(3, 5, 6, c)` the pins cannot be proved to be (3, 5, 6).

Fields that the firmware never writes are left unconstrained, not set to zero. These are:

- the HSV fields after the RGB-only constructors;
- the pins after the default `MotiLed` constructor;
- the hue after `setRGB` of a grey colour, where line 145 casts the NaN of 0/0.

The header declares `setHSV(hue, value, saturation)`, while the definition reads `setHSV(hue, saturation, value)`. Arguments bind by position, so the model follows the definition: the second argument is the saturation.

The source documents every RGB intensity as 0-255 (firmware/MotiColor.cpp:37-40, 50, 62, 129), and `setRGB` divides the bytes by 255 to get a value in [0, 1]. The comment of `setHSV` (firmware/MotiColor.cpp:164) points to the standard HSV-to-RGB conversion, which uses the real hue/60 and returns channels in [0, 1], the same range that `setRGB`'s division by 255 produces. Bytes documented as 0-255 therefore need the product with 255 that lines 215-217 omit. Against these, `setHSV(0, 1, 1)` ought to give (255, 0, 0), but the code gives (1, 0, 0). The model follows the code and records the discrepancy under Findings.

## Model

| member | source | states |
|---|---|---|
| Conversion.Trunc | firmware/MotiColor.cpp:215-217 | a float-to-integer cast truncates toward zero: for x ≥ 0 the result is the largest integer not above x, for x < 0 the smallest not below it |
| Conversion.Cast8 | firmware/MotiColor.cpp:215-217 | the `(uint8_t)` cast, defined only on (-1, 256), gives the byte at most 1 below the absolute value of x |
| Conversion.Cast16 | firmware/MotiColor.cpp:145-149 | the `(uint16_t)` cast, defined only on (-1, 65536), gives the integer at most 1 below the absolute value of x |
| Conversion.Fmod | firmware/MotiColor.cpp:123 | C `fmod` with a positive divisor lies in [0, b) for a ≥ 0 and in (-b, 0] for a < 0 |
| Conversion.Mod | firmware/MotiColor.cpp:122-126 | `__mod` with a positive modulus lies in [0, b) and equals the floored modulo a − ⌊a/b⌋·b |
| Conversion.ModIsFloored | firmware/MotiColor.cpp:122-126 | shifting a negative `fmod` result up by b yields exactly the floored modulo |
| Conversion.FactorSign | firmware/MotiColor.cpp:142-154 | a proof step, not a model of source behaviour: a product with a positive factor has the sign of its other factor. Conversion.QuotientInUnit uses it for the signs of the quotients by delta in the hue formulas |
| Conversion.QuotientInUnit | firmware/MotiColor.cpp:142-149 | a channel difference divided by delta lies in [-1, 1], with its sign and strictness kept |
| Conversion.Norm | firmware/MotiColor.cpp:135-137 | a byte divided by 255 lies in [0, 1] and gives the byte back when multiplied by 255 |
| Conversion.Max3 | firmware/MotiColor.cpp:139 | `max(new_r, max(new_g, new_b))` is one of the three channels and at least each of them |
| Conversion.Min3 | firmware/MotiColor.cpp:140 | `min(new_r, min(new_g, new_b))` is one of the three channels and at most each of them |
| Conversion.Saturation | firmware/MotiColor.cpp:151-154 | the saturation formula on normalised channels: 0 when max equals min, else delta/max. Its range is stated by Conversion.SaturationOfBytes |
| Conversion.HueDegrees | firmware/MotiColor.cpp:139-149 | for a non-grey colour the real hue lies in [0, 360). The red branch (red is the first maximum) gives [0, 60] ∪ [300, 360). The green branch gives [60, 180]. The blue branch gives [180, 300] |
| Conversion.NormMax | firmware/MotiColor.cpp:135-140 | the normalised max and min are the normalised max and min byte, and a channel is the float maximum exactly when it is ≥ the other two |
| Conversion.HueOf | firmware/MotiColor.cpp:135-149 | the stored hue of a non-grey colour is below 360. It lies in [0, 60] ∪ [300, 359] when red is a maximum, in [60, 180] when green is the first maximum, and in [180, 300] otherwise |
| Conversion.SaturationOf | firmware/MotiColor.cpp:139-154 | the saturation is 0 exactly for grey colours. Otherwise it is (max − min)/max in bytes and lies in (0, 1] |
| Conversion.SaturationOfBytes | firmware/MotiColor.cpp:135-154 | the float saturation computed on normalised channels equals the byte ratio (max − min)/max |
| Conversion.ValueOf | firmware/MotiColor.cpp:135-156 | the stored value is max(r, g, b)/255 and lies in [0, 1] |
| Conversion.SectorChannels | firmware/MotiColor.cpp:177-211 | the switch: the chroma and x go to the channels of the rotating pattern of sector h, and all three stay 0 for h ≥ 6. Its table is proved by Conversion.SectorCorner and Conversion.HueBeyondSectorsIsGrey |
| Conversion.SecondComponent | firmware/MotiColor.cpp:174 | x = c·(1 − abs((h mod 2) − 1)) on the integer sector h. Conversion.SecondComponentIsZeroOrChroma proves it is 0 or c |
| Conversion.Components | firmware/MotiColor.cpp:170-213 | the three floats setHSV casts: the switch's channels plus m = v − v·s. Conversion.SectorCorner, Conversion.HueBeyondSectorsIsGrey and Conversion.TwoLevels state what they are |
| Conversion.HsvDefined | firmware/MotiColor.cpp:215-217 | setHSV is defined exactly when each of its three `(uint8_t)` casts is, that is, each component lies in (-1, 256) |
| Conversion.SecondComponentIsZeroOrChroma | firmware/MotiColor.cpp:172-174 | because `h % 2` is taken on the integer sector, x is 0 in even sectors and the whole chroma c in odd ones |
| Conversion.SwitchComponents | firmware/MotiColor.cpp:170-217 | the channels filled by the switch, plus m, are the components setHSV casts |
| Conversion.SectorCorner | firmware/MotiColor.cpp:170-217 | for hue < 360 the components are c·corner + m. The corner belongs to the sector hue/60 (red, yellow, green, cyan, blue, magenta), so the hue inside the sector plays no part |
| Conversion.HueBeyondSectorsIsGrey | firmware/MotiColor.cpp:181-217 | for hue ≥ 360 no case matches and all three components are m = v − v·s |
| Conversion.TwoLevels | firmware/MotiColor.cpp:170-217 | every component is either the value or m = v − v·s |
| Conversion.HsvToRgb | firmware/MotiColor.cpp:169-217 | the bytes setHSV stores. Each channel is the truncation toward zero of v or of v − v·s. For hue ≥ 360 all three equal the truncation of v − v·s |
| Conversion.ChromaBounds | firmware/MotiColor.cpp:170 | a proof step, not a model of source behaviour: for s in [0, 1] and v ≥ 0 the chroma v·s lies in [0, v]. Conversion.UnitInputsGiveBits, IntendedConversion.HsvToRgbScaled, IntendedConversion.DecomposeLevels, IntendedConversion.ShapeRecovers and IntendedConversion.ScaledSectorStart use it |
| Conversion.UnitInputsGiveBits | firmware/MotiColor.cpp:213-217 | for s and v in [0, 1], setHSV is defined, every channel is 0 or 1, and every channel is at most ⌊v⌋: nothing scales to 0..255 |
| Conversion.SameSectorSameComponents | firmware/MotiColor.cpp:172-211 | two hues in the same 60-degree sector give the same components |
| Conversion.FullHueIsBlack | firmware/MotiColor.cpp:181-217 | setHSV(360, 1, 1) is defined and stores black |
| Conversion.AsWrittenIgnoresHueInSector | firmware/MotiColor.cpp:172-211 | at full saturation and value, hue 30 gives the same components as hue 0, namely (1, 0, 0) |
| Conversion.UnitCorner | firmware/MotiColor.cpp:170-217 | at full saturation and value, the components of a hue below 360 are its sector's corner |
| Conversion.UnitPrimary | firmware/MotiColor.cpp:169-217 | setHSV(0 / 120 / 240, 1, 1) stores (1,0,0) / (0,1,0) / (0,0,1) |
| IntendedConversion.Decompose | firmware/MotiColor.cpp:164-213 | the standard six-sector decomposition cited at line 164, with x taken from the real hue/60. Its shape is stated by IntendedConversion.DecomposeShape, its levels by IntendedConversion.DecomposeLevels, and its inverse by IntendedConversion.DecomposeInverts |
| IntendedConversion.Shape | firmware/MotiColor.cpp:181-211 | the six rotating channel patterns of the switch, over the top, rising, falling and bottom levels. IntendedConversion.ShapeLevels bounds them |
| IntendedConversion.Scale | firmware/MotiColor.cpp:215-217 | a unit intensity scaled to a byte is the integer part of 255·x |
| IntendedConversion.HsvToRgbScaled | firmware/MotiColor.cpp:169-222 | the corrected setHSV works for every hue, taken modulo 360. Its brightest channel is ⌊255·v⌋ and its darkest is ⌊255·(v − v·s)⌋ |
| IntendedConversion.ScaleMonotone | firmware/MotiColor.cpp:215-217 | scaling to a byte preserves order |
| IntendedConversion.SectorPosition | firmware/MotiColor.cpp:172-174 | hue/60 = k + f with k = ⌊hue/60⌋ in 0..5 and f in [0, 1), and the real `hue/60 mod 2` is f + (k mod 2) |
| IntendedConversion.SectorOf | firmware/MotiColor.cpp:172 | every hue in [0, 360) is 60·(k + f) for a sector k in 0..5 and a position f in [0, 1) |
| IntendedConversion.SecondComponentInSector | firmware/MotiColor.cpp:174 | with the fractional parity, x is c·f in even sectors and c·(1 − f) in odd ones |
| IntendedConversion.DecomposeShape | firmware/MotiColor.cpp:181-213 | in sector k the switch yields the k-th rotating pattern of the top level v, the rising level c·f + m, the falling level c·(1 − f) + m and the bottom level m |
| IntendedConversion.Lift | firmware/MotiColor.cpp:174-213 | the rising and falling levels lie between m and m + c |
| IntendedConversion.ShapeLevels | firmware/MotiColor.cpp:181-211 | each pattern stays between its bottom and top levels and reaches both |
| IntendedConversion.DecomposeLevels | firmware/MotiColor.cpp:170-217 | every real component lies in [m, v], the largest is v and the smallest is m |
| IntendedConversion.Levels | firmware/MotiColor.cpp:174-213 | the rising and falling levels give back f and f − 1 when the extraction divides their offsets by c |
| IntendedConversion.ModOfUnit | firmware/MotiColor.cpp:122-126 | `__mod(a, 6)` of a in [-1, 1) is a, or a + 6 for negative a |
| IntendedConversion.SectorHue | firmware/MotiColor.cpp:139-156 | setRGB's formulas applied to the k-th pattern give max v, min m, hue 60·(k + f) and saturation c/v |
| IntendedConversion.DecomposeInverts | firmware/MotiColor.cpp:139-156 | decomposing (hue, s, v) with hue in [0, 360), s in (0, 1] and v > 0 and extracting with setRGB's formulas gives back exactly that hue, s and v |
| IntendedConversion.ShapeRecovers | firmware/MotiColor.cpp:139-156 | the same round trip, on the pattern of sector k at position f |
| IntendedConversion.AgreeAtSectorStarts | firmware/MotiColor.cpp:170-211 | at the first hue of every sector the firmware's components coincide with the intended decomposition |
| IntendedConversion.ScaledSectorStart | firmware/MotiColor.cpp:169-222 | at the first hue of sector k (modulo 360), the corrected bytes are the k-th pattern of v and m, scaled |
| IntendedConversion.ScaledPrimary | firmware/MotiColor.cpp:169-222 | the corrected setHSV at full saturation and value gives (255,0,0) at 0 and 360, (0,255,0) at 120 and (0,0,255) at 240 |
| IntendedConversion.HalfwayIsOrange | firmware/MotiColor.cpp:174 | the intended decomposition of hue 30 at full saturation and value is (1, 0.5, 0) |
| IntendedConversion.ScaledGreenAt58 | firmware/MotiColor.cpp:169-222 | the corrected conversion of hue 58 at full saturation and value has green byte 246 |
| Color.NearYellowHsv | firmware/MotiColor.cpp:134-161 | setRGB(255, 250, 0) stores hue 58, saturation 1 and value 1 |
| Color.ScaledRoundTripInexact | firmware/MotiColor.cpp:134-222 | the corrected byte round trip is not exact: (255, 250, 0) comes back with green 246 |
| Color.MotiColor.GetR | firmware/MotiColor.cpp:65-67 | getR reads the red byte; the setters' and constructors' contracts say what it returns |
| Color.MotiColor.GetG | firmware/MotiColor.cpp:73-75 | getG reads the green byte |
| Color.MotiColor.GetB | firmware/MotiColor.cpp:81-83 | getB reads the blue byte |
| Color.MotiColor.GetRGB | firmware/MotiColor.cpp:55-59 | getRGB returns the three bytes, here as one value instead of through pointers |
| Color.MotiColor.GetHue | firmware/MotiColor.cpp:101-103 | getHue reads the hue |
| Color.MotiColor.GetSaturation | firmware/MotiColor.cpp:109-111 | getSaturation reads the saturation |
| Color.MotiColor.GetValue | firmware/MotiColor.cpp:117-119 | getValue reads the value |
| Color.MotiColor.GetHSV | firmware/MotiColor.cpp:91-95 | getHSV returns hue, saturation and value, here as one value instead of through pointers |
| Color.MotiColor.constructor | firmware/MotiColor.cpp:32-34 | the default constructor stores RGB (0, 0, 0) and leaves the HSV fields unwritten |
| Color.MotiColor.FromRgb | firmware/MotiColor.cpp:42-46 | the RGB constructor stores exactly the given bytes |
| Color.MotiColor.Copy | firmware/MotiColor.h:31-72 | the implicit copy constructor copies all six fields |
| Color.MotiColor.CopyFrom | firmware/MotiColor.h:31-72 | the implicit copy assignment gives all six fields the source's old values, also when the source is the target |
| Color.MotiColor.SetRGB | firmware/MotiColor.cpp:134-161 | after setRGB, getRGB returns exactly (r, g, b). Saturation and value are SaturationOf and ValueOf, so the value is max/255 in [0, 1]. For a non-grey colour the hue is HueOf, with its range and branch ranges |
| Color.MotiColor.SetHSV | firmware/MotiColor.cpp:169-222 | when its casts are defined, setHSV stores hue, saturation and value exactly, and the bytes are HsvToRgb of them |
| Color.SectorSwitch | firmware/MotiColor.cpp:177-211 | the switch fills the zero-initialised channels with c and x as SectorChannels places them, and leaves them 0 when hue/60 ≥ 6 |
| Color.Palette | firmware/MotiColor.cpp:235-249 | the fifteen named constants hold their listed bytes. Only Black and White are grey. Black is the only one with every channel at 0. White is the only one with every channel at 255 |
| Color.PaletteInjective | firmware/MotiColor.cpp:235-249 | no two named constants share their bytes |
| Color.PrimaryHsv | firmware/MotiColor.cpp:237-239 | setRGB of RedPure, GreenPure and BluePure stores saturation 1, value 1 and hue 0, 120 and 240 |
| Color.PrimaryRoundTripAsWritten | firmware/MotiColor.cpp:169-222 | writing a primary's own HSV back with setHSV, as written, is defined and turns 255 into 1 |
| Color.PrimaryRoundTripScaled | firmware/MotiColor.cpp:169-222 | the corrected conversion of a primary's HSV gives the primary back |
| Led.ShineWrites | firmware/MotiLed.cpp:66-68 | the three writes of one shine, red, then green, then blue. Led.MotiLed.Shine and the other shine variants state their effect through it |
| Led.MotiLed.constructor | firmware/MotiLed.cpp:32-34 | the default constructor makes a fresh black colour, leaves the pins unwritten, and writes nothing |
| Led.MotiLed.WithPins | firmware/MotiLed.cpp:42-48 | the pin constructor stores the three pins and a fresh black colour |
| Led.MotiLed.WithPinsAndColor | firmware/MotiLed.cpp:57-60 | the four-argument constructor as written stores a copy of the colour, but its own pins are never assigned |
| Led.MotiLed.WithPinsAndColorIntended | firmware/MotiLed.cpp:57-60 | the four-argument constructor as intended stores the pins and a copy of the colour |
| Led.MotiLed.AnalogWrite | firmware/MotiLed.cpp:66-68 | one analogWrite appends one (pin, level) entry to the log and changes nothing else |
| Led.MotiLed.Shine | firmware/MotiLed.cpp:65-69 | shine() appends exactly the three writes of the current colour to its pins, in red, green, blue order. Pins and colour are unchanged |
| Led.MotiLed.GetColor | firmware/MotiLed.cpp:100-102 | getColor returns a fresh copy of the current colour |
| Led.MotiLed.SetColor | firmware/MotiLed.cpp:108-110 | setColor copies the given colour into the LED's colour and touches neither the pins nor the log |
| Led.MotiLed.ShineColor | firmware/MotiLed.cpp:75-78 | shine(c) leaves the colour equal to c and appends c's three writes |
| Led.MotiLed.ShineRgb | firmware/MotiLed.cpp:84-87 | shine(r, g, b) leaves the colour's bytes equal to (r, g, b) and appends writes of r, g, b to the red, green and blue pins |
| Led.MotiLed.TurnOff | firmware/MotiLed.cpp:92-95 | turnOff leaves the colour black and appends a write of 0 to each of the three pins |
| Led.SetThenGetColor | firmware/MotiLed.cpp:100-110 | setColor(c) followed by getColor() gives back c, with the pins and the log unchanged |

## Left out

- `randomColor` (firmware/MotiColor.cpp:228-230) depends on the platform's `random`. It is not part of this model.
- Real hardware output. `analogWrite` is recorded in a log kept per LED. It drives no pin, and writes by different LEDs are not interleaved in one global log.
- IEEE-754 rounding of `float` and `double`. Floats are exact reals, so nothing here claims bit-exact agreement with the firmware, for example for hues that land just below a sector boundary.
- `(uint8_t)` and `(uint16_t)` casts of values outside (-1, 256) and (-1, 65536) are undefined in C. Color.MotiColor.SetHSV therefore requires that its three casts are defined (`HsvDefined`). `setRGB` never comes near its bound.
- The hue that setRGB stores for a grey colour is left unknown: line 145 casts the NaN of 0/0.
- Fields that a constructor never writes hold arbitrary values, not zeros: the HSV fields of a `MotiColor` built from RGB, and the pins of a default-constructed or four-argument `MotiLed`.
- The getters carry no contract of their own: each one returns a field. They appear in the contracts of the setters and constructors.
- IntendedConversion.HsvToRgbScaled: the byte-level round trip through the corrected conversion is not exact. Only the real-valued `Decompose` is proved to invert exactly. The hue is cast to an integer and the channels are truncated to bytes, and the error can exceed 1. Color.ScaledRoundTripInexact proves an example: setRGB(255, 250, 0) stores hue 58 with saturation and value 1, and converting back gives green 246 rather than 250.
- Color.MotiColor.SetHSV keeps the behaviour as written. The corrected conversion IntendedConversion.HsvToRgbScaled stands beside it and is not wired into the class.

## Findings

| source | as written | input that shows it | evidently intended | confidence | as-written member | corrected member |
|---|---|---|---|---|---|---|
| firmware/MotiColor.cpp:215-217 | the components, which lie in [0, 1], are cast to bytes without scaling by 255 | setRGB(255, 0, 0), then setHSV of the stored HSV (0, 1, 1), stores (1, 0, 0) | channels scaled to 0..255, so the round trip gives (255, 0, 0) back | not executed | Color.PrimaryRoundTripAsWritten | Color.PrimaryRoundTripScaled |
| firmware/MotiColor.cpp:172-174 | x uses the parity of the integer sector hue/60, so x is 0 or c and only six corner colours are reachable | setHSV(30, 1, 1) gives the same components (1, 0, 0) as setHSV(0, 1, 1) | x = c·(1 − abs((hue/60 mod 2) − 1)) on the real hue/60, which gives (1, 0.5, 0) at hue 30 and is inverted by setRGB's extraction | not executed | Conversion.AsWrittenIgnoresHueInSector | IntendedConversion.DecomposeInverts |
| firmware/MotiColor.cpp:181-211 | no case of the switch matches hue ≥ 360, so the channels stay 0 | setHSV(360, 1, 1) stores black | the hue taken modulo 360, so 360 gives pure red | not executed | Conversion.FullHueIsBlack | IntendedConversion.ScaledPrimary |
| firmware/MotiLed.cpp:58 | `MotiLed(redPin, greenPin, bluePin);` builds a temporary LED and discards it, so the object's own pins are never assigned | any use of the four-argument constructor, for example MotiLed(3, 5, 6, RedPure) | the pins stored by delegating to the pin constructor | not executed | Led.MotiLed.WithPinsAndColor | Led.MotiLed.WithPinsAndColorIntended |
