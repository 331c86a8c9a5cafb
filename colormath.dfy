/**
  The two conversions that need JavaScript's transcendental functions: OKLCH coordinates
  (`rgbToOklch`) and the relative luminance of the contrast check (`calculateLuminance`).
  `Math.pow`, `Math.cbrt`, `Math.sqrt` and `Math.atan2` are not modelled: they are fields of a
  `MathLib` value supplied by the caller, and `Sound` lists the facts about them the
  proofs rely on, each loose enough to hold of the rounded double-precision functions too. All other arithmetic, and every constant, is as in the source.
 */
module ColorMath {
  import opened HexColor
  import opened Hsl

  /** The library functions the colour engine calls. */
  datatype MathLib = MathLib(
    pow: (real, real) -> real,
    cbrt: real -> real,
    sqrt: real -> real,
    atan2: (real, real) -> real)

  /** `Math.PI`: the double nearest to pi, written out exactly (884279719003555 / 2^48). */
  const PI: real := 3.141592653589793115997963468544185161590576171875

  /** Facts that hold of JavaScript's `Math.pow`, `Math.sqrt`, `Math.cbrt` and `Math.atan2` on
      the arguments the engine gives them, with room left for their rounding: the cube root
      is bounded by three times, rather than twice, the root of an eighth, and `atan2`, whose
      results lie between -`Math.PI` and `Math.PI`, only by 4 in magnitude. */
  ghost predicate Sound(m: MathLib) {
    && (forall x, y :: 0.0 <= x <= 1.0 && 0.0 < y ==> 0.0 <= m.pow(x, y) <= 1.0)
    && m.pow(1.0, 2.4) == 1.0
    && (forall x :: 0.0 <= x ==> 0.0 <= m.sqrt(x))
    && (forall x :: 0.0 <= x ==> 0.0 <= m.cbrt(x))
    && (forall x, y :: 0.0 <= x <= 8.0 * y ==> m.cbrt(x) <= 3.0 * m.cbrt(y))
    && (forall y, x :: -4.0 <= m.atan2(y, x) <= 4.0)
  }

  /** OKLCH rounded as the source rounds it: L and C to 4 decimals, H to 2, each kept as
      the integer numerator (`l4 / 10000`, `c4 / 10000`, `h2 / 100`). */
  datatype Oklch = Oklch(l4: int, c4: int, h2: int)

  /** The sRGB decoding of `rgbToOklch` (threshold 0.04045). */
  function OklabLinear(ch: int, m: MathLib): real {
    var c := ch as real / 255.0;
    if c <= 0.04045 then c / 12.92 else m.pow((c + 0.055) / 1.055, 2.4)
  }

  /** Linear sRGB to CIE XYZ. */
  function ToXyz(r: real, g: real, b: real): (real, real, real) {
    (0.4124564 * r + 0.3575761 * g + 0.1804375 * b,
     0.2126729 * r + 0.7151522 * g + 0.0721750 * b,
     0.0193339 * r + 0.1191920 * g + 0.9503041 * b)
  }

  /** XYZ to the cone responses of OKLab, before the cube root. */
  function ToLms(x: real, y: real, z: real): (real, real, real) {
    (0.8189330101 * x + 0.3618667424 * y - 0.1288597137 * z,
     0.0329845436 * x + 0.9293118715 * y + 0.0361456387 * z,
     0.0482003018 * x + 0.2643662691 * y + 0.6338517070 * z)
  }

  /** Cube-rooted cone responses to OKLab L, a and b. */
  function ToLab(l: real, m: real, s: real): (real, real, real) {
    (0.2104542553 * l + 0.7936177850 * m - 0.0040720468 * s,
     1.9779984951 * l - 2.4285922050 * m + 0.4505937099 * s,
     0.0259040371 * l + 0.7827717662 * m - 0.8086757660 * s)
  }

  /** `rgbToOklch`. */
  function RgbToOklch(c: Rgb, m: MathLib): Oklch {
    var xyz := ToXyz(OklabLinear(c.r, m), OklabLinear(c.g, m), OklabLinear(c.b, m));
    var lms := ToLms(xyz.0, xyz.1, xyz.2);
    var lab := ToLab(m.cbrt(lms.0), m.cbrt(lms.1), m.cbrt(lms.2));
    var chroma := m.sqrt(lab.1 * lab.1 + lab.2 * lab.2);
    var hue0 := m.atan2(lab.2, lab.1) * 180.0 / PI;
    var hue := if hue0 < 0.0 then hue0 + 360.0 else hue0;
    Oklch(Round(lab.0 * 10000.0), Round(chroma * 10000.0), Round(hue * 100.0))
  }

  /** The sRGB decoding of `calculateLuminance` (threshold 0.03928, kept apart from the
      OKLab one). */
  function LuminanceLinear(ch: int, m: MathLib): real {
    var c := ch as real / 255.0;
    if c <= 0.03928 then c / 12.92 else m.pow((c + 0.055) / 1.055, 2.4)
  }

  /** `calculateLuminance`: the weighted sum of the decoded channels. */
  function Luminance(c: Rgb, m: MathLib): real {
    0.2126 * LuminanceLinear(c.r, m) + 0.7152 * LuminanceLinear(c.g, m) + 0.0722 * LuminanceLinear(c.b, m)
  }

  // ---------------------------------------------------------------------------
  // Lemmas

  lemma DecodedRange(ch: int, m: MathLib)
    requires Sound(m) && IsChannel(ch)
    ensures 0.0 <= OklabLinear(ch, m) <= 1.0
    ensures 0.0 <= LuminanceLinear(ch, m) <= 1.0
  {
    var c := ch as real / 255.0;
    assert 0.0 <= (c + 0.055) / 1.055 <= 1.0;
  }

  /** Relative luminance of an 8-bit colour lies in [0, 1]: 0 for black, 1 for white. */
  lemma LuminanceRange(c: Rgb, m: MathLib)
    requires Sound(m) && InGamut(c)
    ensures 0.0 <= Luminance(c, m) <= 1.0
    ensures c == Rgb(0, 0, 0) ==> Luminance(c, m) == 0.0
    ensures c == Rgb(255, 255, 255) ==> Luminance(c, m) == 1.0
  {
    DecodedRange(c.r, m);
    DecodedRange(c.g, m);
    DecodedRange(c.b, m);
    if c == Rgb(255, 255, 255) {
      assert (1.0 + 0.055) / 1.055 == 1.0;
      assert LuminanceLinear(255, m) == 1.0;
    }
  }

  /** OKLab lightness is non-negative on the sRGB cube: the cone responses are non-negative and
      the short-wave one is at most eight times the medium one, so its cube root is at most
      about twice (here: three times) as large and its small negative weight cannot win. */
  lemma LightnessNonNegative(r: real, g: real, b: real, m: MathLib)
    requires Sound(m) && 0.0 <= r && 0.0 <= g && 0.0 <= b
    ensures var xyz := ToXyz(r, g, b); var lms := ToLms(xyz.0, xyz.1, xyz.2);
      ToLab(m.cbrt(lms.0), m.cbrt(lms.1), m.cbrt(lms.2)).0 >= 0.0
  {
    var xyz := ToXyz(r, g, b);
    var lms := ToLms(xyz.0, xyz.1, xyz.2);
    assert 0.0 <= lms.0 && 0.0 <= lms.1 && 0.0 <= lms.2;
    assert lms.2 <= 8.0 * lms.1;
    assert m.cbrt(lms.2) <= 3.0 * m.cbrt(lms.1);
  }

  /** `rgbToOklch` of an 8-bit colour has non-negative lightness and chroma and a hue in
      [0, 360] degrees (360 only through rounding). */
  lemma OklchRange(c: Rgb, m: MathLib)
    requires Sound(m) && InGamut(c)
    ensures var o := RgbToOklch(c, m); o.l4 >= 0 && o.c4 >= 0 && 0 <= o.h2 <= 36000
  {
    DecodedRange(c.r, m);
    DecodedRange(c.g, m);
    DecodedRange(c.b, m);
    var r, g, b := OklabLinear(c.r, m), OklabLinear(c.g, m), OklabLinear(c.b, m);
    LightnessNonNegative(r, g, b, m);
    var xyz := ToXyz(r, g, b);
    var lms := ToLms(xyz.0, xyz.1, xyz.2);
    var lab := ToLab(m.cbrt(lms.0), m.cbrt(lms.1), m.cbrt(lms.2));
    var chroma := m.sqrt(lab.1 * lab.1 + lab.2 * lab.2);
    assert lab.1 * lab.1 + lab.2 * lab.2 >= 0.0;
    var angle := m.atan2(lab.2, lab.1);
    var hue0 := angle * 180.0 / PI;
    assert -360.0 < hue0 < 360.0 by {
      assert -4.0 <= angle <= 4.0;
      AngleToDegrees(angle);
    }
    var hue := if hue0 < 0.0 then hue0 + 360.0 else hue0;
    RoundNonNegative(lab.0 * 10000.0);
    RoundNonNegative(chroma * 10000.0);
    RoundBetween(hue * 100.0, 0, 36000);
  }

  /** An angle of at most 4 radians either way is less than a full turn in degrees, so one
      added turn brings a negative hue into [0, 360). */
  lemma AngleToDegrees(a: real)
    requires -4.0 <= a <= 4.0
    ensures -360.0 < a * 180.0 / PI < 360.0
  {
    var d := a * 180.0 / PI;
    assert d * PI == a * 180.0;
  }

  /** `Sound` can be met, by a library whose `atan2` returns `Math.PI` itself, as
      `Math.atan2(0, -1)` does. */
  lemma SoundAdmitsMathPi()
    ensures var m := MathLib((x, y) => x, x => 0.0, x => x, (y, x) => PI);
      Sound(m) && m.atan2(0.0, -1.0) == PI
  {
  }
}
