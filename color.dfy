/**
 * Colours: 24-bit RGBA pixels as read from a PNG, and the Neo Geo's 16-bit
 * colour word.
 *
 * A 16-bit colour word holds, from the top bit down: the "dark" bit (15),
 * the lowest bit of the red, green and blue channels (14, 13, 12), and the
 * upper four bits of red (11-8), green (7-4) and blue (3-0). Each channel
 * is the 8-bit input divided by 8, so five bits survive.
 */
module Color {

  type Byte = x: int | 0 <= x < 256

  /** A PNG pixel: red, green, blue, alpha. */
  datatype Rgba = Rgba(r: Byte, g: Byte, b: Byte, a: Byte)

  /** The pixel colour the whole pipeline treats as transparent. */
  const MAGENTA24 := Rgba(255, 0, 255, 255)
  const WHITE24 := Rgba(255, 255, 255, 255)
  const BLACK24 := Rgba(0, 0, 0, 255)
  const RED24 := Rgba(255, 0, 0, 255)
  const GREEN24 := Rgba(0, 255, 0, 255)

  /**
   * The parity of the pixel's luma, `floor(54.213 r + 182.376 g + 18.411 b)`,
   * computed exactly on integers (thousandths).
   */
  function Luma(c: Rgba): (l: int)
    ensures l == 0 || l == 1
  {
    ((54213 * c.r + 182376 * c.g + 18411 * c.b) / 1000) % 2
  }

  /** The channels, as five-bit values. */
  function Red5(c: Rgba): (v: int) ensures 0 <= v < 32 { c.r / 8 }
  function Green5(c: Rgba): (v: int) ensures 0 <= v < 32 { c.g / 8 }
  function Blue5(c: Rgba): (v: int) ensures 0 <= v < 32 { c.b / 8 }

  /**
   * The colour word with the dark bit left clear. Every field occupies its
   * own bits, so the source's bitwise-or of shifted fields is their sum,
   * written here most significant field first.
   */
  function ConvertTo16BitColorIgnoreDarkBit(c: Rgba): (w: int)
    ensures 0 <= w < 0x8000
  {
    var red, green, blue := Red5(c), Green5(c), Blue5(c);
    ((((red % 2) * 2 + green % 2) * 2 + blue % 2) * 16 + red / 2) * 256
      + (green / 2) * 16 + blue / 2
  }

  /**
   * The full colour word: the dark bit is set exactly when the luma is
   * even, above the ignore-dark-bit word.
   */
  function ConvertTo16BitColor(c: Rgba): (w: int)
    ensures 0 <= w < 0x10000
  {
    (1 - Luma(c)) * 0x8000 + ConvertTo16BitColorIgnoreDarkBit(c)
  }

  /** The fields of a colour word: five bits per channel and the dark bit. */
  datatype Fields = Fields(red: int, green: int, blue: int, dark: int)

  /**
   * Reads the fields back out of a 16-bit colour word, peeling off the
   * blue, green and red nibbles and then the three low channel bits.
   */
  function DecodeColor16(w: int): (f: Fields)
    requires 0 <= w < 0x10000
    ensures 0 <= f.red < 32 && 0 <= f.green < 32 && 0 <= f.blue < 32
    ensures f.dark == 0 || f.dark == 1
  {
    var blueHi, r1 := w % 16, w / 16;
    var greenHi, r2 := r1 % 16, r1 / 16;
    var redHi, r3 := r2 % 16, r2 / 16;
    var blueLo, r4 := r3 % 2, r3 / 2;
    var greenLo, r5 := r4 % 2, r4 / 2;
    var redLo, dark := r5 % 2, r5 / 2;
    Fields(redHi * 2 + redLo, greenHi * 2 + greenLo, blueHi * 2 + blueLo, dark)
  }

  /** A multiple of a positive `m` other than 0 is at least `m` away from 0. */
  lemma {:induction false} MultipleBound(k: int, m: int)
    requires 0 < m
    ensures k >= 1 ==> k * m >= m
    ensures k <= -1 ==> k * m <= -m
  {
    if k >= 1 {
      assert k * m == (k - 1) * m + m;
    } else if k <= -1 {
      assert k * m == (k + 1) * m - m;
    }
  }

  /** Division by `m` undoes `a * m + b` for a digit `b`. */
  lemma {:induction false} DivModDigit(a: int, b: int, m: int)
    requires 0 < m && 0 <= b < m
    ensures (a * m + b) / m == a && (a * m + b) % m == b
  {
    var q, r := (a * m + b) / m, (a * m + b) % m;
    assert (q - a) * m == b - r;
    MultipleBound(q - a, m);
  }

  /** The colour word laid out from its fields, one digit at a time from the dark bit down. */
  function Compose(dark: int, red: int, green: int, blue: int): int {
    (((((dark * 2 + red % 2) * 2 + green % 2) * 2 + blue % 2) * 16 + red / 2) * 16 + green / 2) * 16 + blue / 2
  }

  /** Decoding undoes the layout of the fields. */
  lemma {:induction false} DecodeCompose(dark: int, red: int, green: int, blue: int)
    requires 0 <= dark < 2 && 0 <= red < 32 && 0 <= green < 32 && 0 <= blue < 32
    ensures 0 <= Compose(dark, red, green, blue) < 0x10000
    ensures DecodeColor16(Compose(dark, red, green, blue)) == Fields(red, green, blue, dark)
  {
    var r5 := dark * 2 + red % 2;
    var r4 := r5 * 2 + green % 2;
    var r3 := r4 * 2 + blue % 2;
    var r2 := r3 * 16 + red / 2;
    var r1 := r2 * 16 + green / 2;
    DivModDigit(r1, blue / 2, 16);
    DivModDigit(r2, green / 2, 16);
    DivModDigit(r3, red / 2, 16);
    DivModDigit(r4, blue % 2, 2);
    DivModDigit(r5, green % 2, 2);
    DivModDigit(dark, red % 2, 2);
  }

  /** Decoding a converted colour gives its five-bit channels and its dark bit. */
  lemma {:induction false} DecodeConvert(c: Rgba)
    ensures DecodeColor16(ConvertTo16BitColor(c))
         == Fields(Red5(c), Green5(c), Blue5(c), 1 - Luma(c))
  {
    ConvertIsCompose(c);
    DecodeCompose(1 - Luma(c), Red5(c), Green5(c), Blue5(c));
  }

  /** The converted word is the layout of the pixel's fields. */
  lemma {:induction false} ConvertIsCompose(c: Rgba)
    ensures ConvertTo16BitColor(c) == Compose(1 - Luma(c), Red5(c), Green5(c), Blue5(c))
  {
  }

  /** Clearing the dark bit of the full word gives the ignore-dark-bit word. */
  lemma {:induction false} IgnoreDarkBitClearsBit15(c: Rgba)
    ensures ConvertTo16BitColor(c) % 0x8000 == ConvertTo16BitColorIgnoreDarkBit(c)
    ensures ConvertTo16BitColor(c) / 0x8000 == 1 - Luma(c)
  {
    DivModDigit(1 - Luma(c), ConvertTo16BitColorIgnoreDarkBit(c), 0x8000);
  }

  /**
   * Two pixels get the same colour word exactly when they agree in their
   * five-bit channels and in the parity of their luma: alpha and the low
   * three bits of each channel are lost.
   */
  lemma {:induction false} ConvertCollides(c: Rgba, d: Rgba)
    ensures ConvertTo16BitColor(c) == ConvertTo16BitColor(d)
        <==> Red5(c) == Red5(d) && Green5(c) == Green5(d) && Blue5(c) == Blue5(d)
             && Luma(c) == Luma(d)
  {
    DecodeConvert(c);
    DecodeConvert(d);
    ConvertIsCompose(c);
    ConvertIsCompose(d);
  }

  /** `palette.map(convertTo16BitColor)`. */
  function ConvertTo16BitPalette(p: seq<Rgba>): (q: seq<int>)
    ensures |q| == |p|
    ensures forall i :: 0 <= i < |p| ==> q[i] == ConvertTo16BitColor(p[i])
  {
    if |p| == 0 then [] else [ConvertTo16BitColor(p[0])] + ConvertTo16BitPalette(p[1..])
  }

  /** `palette.map(convertTo16BitColorIgnoreDarkBit)`. */
  function ConvertTo16BitPaletteIgnoreDarkBit(p: seq<Rgba>): (q: seq<int>)
    ensures |q| == |p|
    ensures forall i :: 0 <= i < |p| ==> q[i] == ConvertTo16BitColorIgnoreDarkBit(p[i])
  {
    if |p| == 0 then [] else [ConvertTo16BitColorIgnoreDarkBit(p[0])] + ConvertTo16BitPaletteIgnoreDarkBit(p[1..])
  }

  /** The named 16-bit colours; `NamedColors` shows each is its 24-bit colour's word. */
  const MAGENTA16 := 0x5F0F
  const WHITE16 := 0x7FFF
  const BLACK16 := 0x8000
  const RED16 := 0xCF00
  const GREEN16 := 0x20F0

  /** The 16-bit colour that stands for transparency in every palette. */
  const TRANSPARENT16 := MAGENTA16

  /**
   * The named colours' words. Magenta's luma is odd, so its dark bit is clear
   * and both conversions agree on it, and on transparency.
   */
  lemma {:induction false} NamedColors()
    ensures ConvertTo16BitColor(MAGENTA24) == MAGENTA16 == TRANSPARENT16
    ensures ConvertTo16BitColorIgnoreDarkBit(MAGENTA24) == MAGENTA16
    ensures ConvertTo16BitColor(WHITE24) == WHITE16
    ensures ConvertTo16BitColor(BLACK24) == BLACK16
    ensures ConvertTo16BitColor(RED24) == RED16
    ensures ConvertTo16BitColor(GREEN24) == GREEN16
    ensures ConvertTo16BitColor(Rgba(128, 0, 0, 255)) == 0x0800
  {
    MagentaWord();
    WhiteWord();
    BlackWord();
    RedWord();
    GreenWord();
    DarkRedWord();
  }

  lemma {:induction false} MagentaWord()
    ensures ConvertTo16BitColor(MAGENTA24) == MAGENTA16
    ensures ConvertTo16BitColorIgnoreDarkBit(MAGENTA24) == MAGENTA16
  {
    assert Luma(MAGENTA24) == 1;
  }

  lemma {:induction false} WhiteWord()
    ensures ConvertTo16BitColor(WHITE24) == WHITE16
  {
    assert Luma(WHITE24) == 1;
  }

  lemma {:induction false} BlackWord()
    ensures ConvertTo16BitColor(BLACK24) == BLACK16
  {
    assert Luma(BLACK24) == 0;
  }

  lemma {:induction false} RedWord()
    ensures ConvertTo16BitColor(RED24) == RED16
  {
    assert Luma(RED24) == 0;
  }

  lemma {:induction false} GreenWord()
    ensures ConvertTo16BitColor(GREEN24) == GREEN16
  {
    assert Luma(GREEN24) == 1;
  }

  lemma {:induction false} DarkRedWord()
    ensures ConvertTo16BitColor(Rgba(128, 0, 0, 255)) == 0x0800
  {
    var darkRed := Rgba(128, 0, 0, 255);
    assert Luma(darkRed) == 1 && Red5(darkRed) == 16 && Green5(darkRed) == 0 && Blue5(darkRed) == 0;
  }
}
