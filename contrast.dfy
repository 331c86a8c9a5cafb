/**
  Contrast of two colours as the WCAG 2.1 glossary defines the contrast ratio,
  (L1 + 0.05) / (L2 + 0.05) with L1 the lighter relative luminance, and the tiered rating the
  palette shows: AAA from 7:1 (Success Criterion 1.4.6), AA from 4.5:1 (Success Criterion
  1.4.3), and the tool's own extra tier A from 3:1.
 */
module Contrast {
  import opened Wrappers
  import opened HexColor
  import opened ColorMath

  function Max(x: real, y: real): real { if x >= y then x else y }

  function Min(x: real, y: real): real { if x <= y then x else y }

  /** `(brighter + 0.05) / (darker + 0.05)` for two luminances. */
  function RatioOf(lum1: real, lum2: real): (ratio: real)
    requires 0.0 <= lum1 && 0.0 <= lum2
    ensures ratio >= 1.0
    ensures ratio == 1.0 <==> lum1 == lum2
  {
    var brighter, darker := Max(lum1, lum2), Min(lum1, lum2);
    (brighter + 0.05) / (darker + 0.05)
  }

  /** `calculateContrastRatio`: 1 when either string is not a valid colour. */
  function ContrastRatio(color1: string, color2: string, m: MathLib): (ratio: real)
    requires Sound(m)
    ensures 1.0 <= ratio <= 21.0
    ensures !IsValidHex(color1) || !IsValidHex(color2) ==> ratio == 1.0
  {
    HexToRgbNullIffInvalid(color1);
    HexToRgbNullIffInvalid(color2);
    match (HexToRgb(color1), HexToRgb(color2))
    case (Some(rgb1), Some(rgb2)) =>
      LuminanceRange(rgb1, m);
      LuminanceRange(rgb2, m);
      var lum1, lum2 := Luminance(rgb1, m), Luminance(rgb2, m);
      RatioAtMost21(lum1, lum2);
      RatioOf(lum1, lum2)
    case _ => 1.0
  }

  datatype Level = AAA | AA | A | Fail

  /** The object `getAccessibilityRating` returns: level, description and display class. */
  datatype Rating = Rating(level: Level, text: string, color: string)

  /** `getAccessibilityRating`: the first threshold the ratio reaches, from the top. */
  function AccessibilityRating(ratio: real): (r: Rating)
    ensures r.level == AAA <==> ratio >= 7.0
    ensures r.level == AA <==> 4.5 <= ratio < 7.0
    ensures r.level == A <==> 3.0 <= ratio < 4.5
    ensures r.level == Fail <==> ratio < 3.0
  {
    if ratio >= 7.0 then Rating(AAA, "Excellent", "text-green-600")
    else if ratio >= 4.5 then Rating(AA, "Good", "text-blue-600")
    else if ratio >= 3.0 then Rating(A, "Fair", "text-yellow-600")
    else Rating(Fail, "Poor", "text-red-600")
  }

  /** The order of the tiers. */
  function Rank(level: Level): nat {
    match level
    case Fail => 0
    case A => 1
    case AA => 2
    case AAA => 3
  }

  /** Success Criterion 1.4.3 (contrast, minimum) for normal text. */
  predicate MeetsWcagAA(ratio: real) { ratio >= 4.5 }

  /** Success Criterion 1.4.6 (contrast, enhanced) for normal text. */
  predicate MeetsWcagAAA(ratio: real) { ratio >= 7.0 }

  // ---------------------------------------------------------------------------
  // Lemmas

  /** a / d <= k whenever a <= k * d for a positive d. */
  lemma QuotientAtMost(a: real, d: real, k: real)
    requires 0.0 < d && a <= k * d
    ensures a / d <= k
  {
    var q := a / d;
    assert q * d == a;
    if q > k {
      assert q * d > k * d;
    }
  }

  /** k <= a / d whenever k * d <= a for a positive d. */
  lemma QuotientAtLeast(a: real, d: real, k: real)
    requires 0.0 < d && k * d <= a
    ensures k <= a / d
  {
    var q := a / d;
    assert q * d == a;
    if q < k {
      assert q * d < k * d;
    }
  }

  /** a / d grows with a and shrinks with d. */
  lemma QuotientMonotone(a: real, a': real, d: real, d': real)
    requires 0.0 <= a <= a' && 0.0 < d' <= d
    ensures a / d <= a' / d'
  {
    var q := a' / d';
    assert q * d' == a';
    assert q >= 0.0;
    assert a <= q * d by {
      assert q * d' <= q * d;
    }
    QuotientAtMost(a, d, q);
  }

  lemma RatioAtMost21(lum1: real, lum2: real)
    requires 0.0 <= lum1 <= 1.0 && 0.0 <= lum2 <= 1.0
    ensures RatioOf(lum1, lum2) <= 21.0
  {
    var brighter, darker := Max(lum1, lum2), Min(lum1, lum2);
    QuotientAtMost(brighter + 0.05, darker + 0.05, 21.0);
  }

  /** The ratio does not depend on the order of its arguments. */
  lemma ContrastSymmetric(color1: string, color2: string, m: MathLib)
    requires Sound(m)
    ensures ContrastRatio(color1, color2, m) == ContrastRatio(color2, color1, m)
  {
    HexToRgbNullIffInvalid(color1);
    HexToRgbNullIffInvalid(color2);
    if HexToRgb(color1).Some? && HexToRgb(color2).Some? {
      var rgb1, rgb2 := HexToRgb(color1).value, HexToRgb(color2).value;
      ContrastOfParsed(color1, color2, rgb1, rgb2, m);
      ContrastOfParsed(color2, color1, rgb2, rgb1, m);
      RatioSymmetric(Luminance(rgb1, m), Luminance(rgb2, m));
    }
  }

  lemma RatioSymmetric(lum1: real, lum2: real)
    requires 0.0 <= lum1 && 0.0 <= lum2
    ensures RatioOf(lum1, lum2) == RatioOf(lum2, lum1)
  {
  }

  /** A colour against itself has the least possible contrast. */
  lemma ContrastWithItself(color: string, m: MathLib)
    requires Sound(m)
    ensures ContrastRatio(color, color, m) == 1.0
  {
  }

  lemma WhiteParses()
    ensures HexToRgb("#FFFFFF") == Some(Rgb(255, 255, 255))
  {
    var s := "#FFFFFF";
    assert IsValidHex(s);
    assert RemoveFirstHash(s) == s[1..];
    HexToRgbChannels(s);
  }

  lemma BlackParses()
    ensures HexToRgb("#000000") == Some(Rgb(0, 0, 0))
  {
    var s := "#000000";
    assert IsValidHex(s);
    assert RemoveFirstHash(s) == s[1..];
    HexToRgbChannels(s);
  }

  /** White against black reaches the maximum, 21:1. */
  lemma BlackOnWhite(m: MathLib)
    requires Sound(m)
    ensures ContrastRatio("#FFFFFF", "#000000", m) == 21.0
  {
    WhiteParses();
    BlackParses();
    LuminanceRange(Rgb(255, 255, 255), m);
    LuminanceRange(Rgb(0, 0, 0), m);
  }

  /** A lighter, or equally light, first colour: raising its luminance cannot lower the ratio,
      raising the darker one cannot raise it. */
  lemma RatioMonotone(brighter: real, brighter': real, darker: real, darker': real)
    requires 0.0 <= darker' <= darker <= brighter <= brighter'
    ensures RatioOf(brighter, darker) <= RatioOf(brighter', darker')
  {
    QuotientMonotone(brighter + 0.05, brighter' + 0.05, darker + 0.05, darker' + 0.05);
  }

  /** The rating never drops as the ratio grows. */
  lemma RatingMonotone(ratio: real, ratio': real)
    requires ratio <= ratio'
    ensures Rank(AccessibilityRating(ratio).level) <= Rank(AccessibilityRating(ratio').level)
  {
  }

  /** The AA and AAA tiers are exactly the ratios that meet the two WCAG criteria, and each level
      comes with its fixed description. */
  lemma RatingMatchesWcag(ratio: real)
    ensures Rank(AccessibilityRating(ratio).level) >= Rank(AA) <==> MeetsWcagAA(ratio)
    ensures AccessibilityRating(ratio).level == AAA <==> MeetsWcagAAA(ratio)
    ensures var r := AccessibilityRating(ratio);
      && (r.level == AAA ==> r.text == "Excellent") && (r.level == AA ==> r.text == "Good")
      && (r.level == A ==> r.text == "Fair") && (r.level == Fail ==> r.text == "Poor")
  {
  }

  /** For luminance L, the ratio against luminance 1 is 1.05 / (L + 0.05) and the one against
      luminance 0 is (L + 0.05) / 0.05. */
  lemma RatiosAgainstExtremes(lum: real)
    requires 0.0 <= lum <= 1.0
    ensures RatioOf(lum, 1.0) * RatioOf(lum, 0.0) == 21.0
  {
    var w, b := RatioOf(lum, 1.0), RatioOf(lum, 0.0);
    assert w == 1.05 / (lum + 0.05);
    assert b == (lum + 0.05) / 0.05;
    assert w * (lum + 0.05) == 1.05;
    assert b * 0.05 == lum + 0.05;
    assert w * b * 0.05 == 1.05 by {
      assert w * (b * 0.05) == w * (lum + 0.05);
    }
  }

  /** For two valid colours the ratio is that of their luminances. */
  lemma ContrastOfParsed(color1: string, color2: string, rgb1: Rgb, rgb2: Rgb, m: MathLib)
    requires Sound(m) && HexToRgb(color1) == Some(rgb1) && HexToRgb(color2) == Some(rgb2)
    ensures 0.0 <= Luminance(rgb1, m) && 0.0 <= Luminance(rgb2, m)
    ensures ContrastRatio(color1, color2, m) == RatioOf(Luminance(rgb1, m), Luminance(rgb2, m))
  {
    LuminanceRange(rgb1, m);
    LuminanceRange(rgb2, m);
  }

  /** The two ratios a palette card shows, against white and against black, are those of the
      colour's luminance against 1 and against 0. */
  lemma CardRatios(color: string, m: MathLib)
    requires Sound(m) && IsValidHex(color)
    ensures HexToRgb(color).Some?
    ensures var lum := Luminance(HexToRgb(color).value, m);
      && 0.0 <= lum <= 1.0
      && ContrastRatio(color, "#FFFFFF", m) == RatioOf(lum, 1.0)
      && ContrastRatio(color, "#000000", m) == RatioOf(lum, 0.0)
  {
    HexToRgbNullIffInvalid(color);
    var rgb := HexToRgb(color).value;
    WhiteParses();
    BlackParses();
    LuminanceRange(rgb, m);
    LuminanceRange(Rgb(255, 255, 255), m);
    LuminanceRange(Rgb(0, 0, 0), m);
    ContrastOfParsed(color, "#FFFFFF", rgb, Rgb(255, 255, 255), m);
    ContrastOfParsed(color, "#000000", rgb, Rgb(0, 0, 0), m);
  }

  /** Against luminances 1 and 0 one of the two ratios reaches 4.5: their product is 21, more
      than 4.5 * 4.5. */
  lemma ExtremesMeetAA(lum: real)
    requires 0.0 <= lum <= 1.0
    ensures MeetsWcagAA(RatioOf(lum, 1.0)) || MeetsWcagAA(RatioOf(lum, 0.0))
  {
    assert RatioOf(lum, 1.0) == 1.05 / (lum + 0.05);
    assert RatioOf(lum, 0.0) == 20.0 * lum + 1.0;
    if lum + 0.05 <= 0.23 {
      QuotientAtLeast(1.05, lum + 0.05, 4.5);
    }
  }

  /** So every valid colour meets AA against white or against black. */
  lemma AAWithWhiteOrBlack(color: string, m: MathLib)
    requires Sound(m) && IsValidHex(color)
    ensures MeetsWcagAA(ContrastRatio(color, "#FFFFFF", m)) || MeetsWcagAA(ContrastRatio(color, "#000000", m))
  {
    CardRatios(color, m);
    ExtremesMeetAA(Luminance(HexToRgb(color).value, m));
  }
}
