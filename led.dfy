/**
 * The MotiLed class: one RGB LED driven through three PWM pins, with the
 * colour it currently shows. analogWrite is a platform call; here every
 * call is recorded, in order, in a log of writes kept with the LED, so the
 * effect of each operation on the pins can be stated exactly.
 */
module Led {
  import opened Conversion
  import opened Color

  /** One analogWrite call: a duty cycle written to a pin. */
  datatype Write = Write(pin: uint8, level: uint8)

  /** The three writes that show rgb on the given pins: red, then green, then blue. */
  function ShineWrites(redPin: uint8, greenPin: uint8, bluePin: uint8, rgb: Rgb): seq<Write> {
    [Write(redPin, rgb.r), Write(greenPin, rgb.g), Write(bluePin, rgb.b)]
  }

  class MotiLed {
    var redPin: uint8
    var greenPin: uint8
    var bluePin: uint8
    /** The LED's own colour, held by value: it is only ever copied into and out of. */
    const color: MotiColor
    /** Whether a constructor has written the three pin fields. */
    ghost var pinsAssigned: bool
    /** Every analogWrite this LED has made, oldest first. */
    ghost var writes: seq<Write>

    function Pins(): (uint8, uint8, uint8)
      reads this
    {
      (redPin, greenPin, bluePin)
    }

    /**
     * The default constructor: the colour is black, the pins are never
     * written and hold whatever they held.
     */
    constructor ()
      ensures fresh(color) && color.GetRGB() == Rgb(0, 0, 0)
      ensures !pinsAssigned && writes == []
    {
      color := new MotiColor.FromRgb(0, 0, 0);
      pinsAssigned := false;
      writes := [];
    }

    /** The pin constructor: stores the three pins, and the colour is black. */
    constructor WithPins(redPin0: uint8, greenPin0: uint8, bluePin0: uint8)
      ensures Pins() == (redPin0, greenPin0, bluePin0) && pinsAssigned
      ensures fresh(color) && color.GetRGB() == Rgb(0, 0, 0)
      ensures writes == []
    {
      redPin, greenPin, bluePin := redPin0, greenPin0, bluePin0;
      color := new MotiColor.FromRgb(0, 0, 0);
      pinsAssigned := true;
      writes := [];
    }

    /**
     * The pin-and-colour constructor as written: its first statement
     * constructs a separate, unnamed MotiLed with the pins and drops it,
     * so this LED's own pins are never written. Only the colour is stored.
     */
    constructor WithPinsAndColor(redPin0: uint8, greenPin0: uint8, bluePin0: uint8, c: MotiColor)
      ensures fresh(color) && color.GetRGB() == c.GetRGB() && color.GetHSV() == c.GetHSV()
      ensures !pinsAssigned && writes == []
    {
      var temporary := new MotiLed.WithPins(redPin0, greenPin0, bluePin0);
      color := new MotiColor.Copy(c);
      pinsAssigned := false;
      writes := [];
    }

    /** The pin-and-colour constructor as evidently intended: pins and colour both stored. */
    constructor WithPinsAndColorIntended(redPin0: uint8, greenPin0: uint8, bluePin0: uint8, c: MotiColor)
      ensures Pins() == (redPin0, greenPin0, bluePin0) && pinsAssigned
      ensures fresh(color) && color.GetRGB() == c.GetRGB() && color.GetHSV() == c.GetHSV()
      ensures writes == []
    {
      redPin, greenPin, bluePin := redPin0, greenPin0, bluePin0;
      color := new MotiColor.Copy(c);
      pinsAssigned := true;
      writes := [];
    }

    /** analogWrite: records one write; nothing else changes. */
    method AnalogWrite(pin: uint8, level: uint8)
      modifies this
      ensures writes == old(writes) + [Write(pin, level)]
      ensures Pins() == old(Pins()) && pinsAssigned == old(pinsAssigned)
    {
      writes := writes + [Write(pin, level)];
    }

    /** shine(): writes the current colour's red, green and blue to the matching pins. */
    method Shine()
      modifies this
      ensures writes == old(writes) + ShineWrites(redPin, greenPin, bluePin, color.GetRGB())
      ensures Pins() == old(Pins()) && pinsAssigned == old(pinsAssigned)
    {
      AnalogWrite(redPin, color.GetR());
      AnalogWrite(greenPin, color.GetG());
      AnalogWrite(bluePin, color.GetB());
    }

    /** getColor: a copy of the current colour. */
    method GetColor() returns (c: MotiColor)
      ensures fresh(c) && c.GetRGB() == color.GetRGB() && c.GetHSV() == color.GetHSV()
    {
      c := new MotiColor.Copy(color);
    }

    /** setColor: the current colour becomes a copy of c; pins and writes are untouched. */
    method SetColor(c: MotiColor)
      modifies color
      ensures color.GetRGB() == old(c.GetRGB()) && color.GetHSV() == old(c.GetHSV())
    {
      color.CopyFrom(c);
    }

    /** shine(color): sets the colour to c, then shines it. */
    method ShineColor(c: MotiColor)
      modifies this, color
      ensures color.GetRGB() == old(c.GetRGB()) && color.GetHSV() == old(c.GetHSV())
      ensures writes == old(writes) + ShineWrites(redPin, greenPin, bluePin, old(c.GetRGB()))
      ensures Pins() == old(Pins()) && pinsAssigned == old(pinsAssigned)
    {
      SetColor(c);
      Shine();
    }

    /**
     * shine(r, g, b): sets the colour to a fresh MotiColor(r, g, b), then
     * shines it. That temporary's HSV fields were never written, so nothing
     * is known of the HSV the LED's colour holds afterwards.
     */
    method ShineRgb(r: uint8, g: uint8, b: uint8)
      modifies this, color
      ensures color.GetRGB() == Rgb(r, g, b)
      ensures writes == old(writes) + ShineWrites(redPin, greenPin, bluePin, Rgb(r, g, b))
      ensures Pins() == old(Pins()) && pinsAssigned == old(pinsAssigned)
    {
      var c := new MotiColor.FromRgb(r, g, b);
      SetColor(c);
      Shine();
    }

    /** turnOff: sets the colour to black and shines it, writing 0 to every pin. */
    method TurnOff()
      modifies this, color
      ensures color.GetRGB() == Rgb(0, 0, 0)
      ensures writes == old(writes) + [Write(redPin, 0), Write(greenPin, 0), Write(bluePin, 0)]
      ensures Pins() == old(Pins()) && pinsAssigned == old(pinsAssigned)
    {
      var c := new MotiColor.FromRgb(0, 0, 0);
      SetColor(c);
      Shine();
    }
  }

  /** setColor(c) followed by getColor() gives back c; the pins and the writes are untouched. */
  method SetThenGetColor(led: MotiLed, c: MotiColor) returns (d: MotiColor)
    modifies led.color
    ensures d.GetRGB() == old(c.GetRGB()) && d.GetHSV() == old(c.GetHSV())
    ensures led.Pins() == old(led.Pins()) && led.writes == old(led.writes)
  {
    led.SetColor(c);
    d := led.GetColor();
  }
}
